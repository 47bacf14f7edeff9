/** `create_patches` of cJSON_Utils.c: the generated patches turn the one document into the other. Generating them sorts
    the objects of both in place. */
module PatchDiff {
  import opened Bytes
  import opened Json
  import opened JsonPointer
  import opened PointerDecode
  import opened PointerText
  import opened KeyedSort
  import opened ListTail
  import opened JsonNormal
  import opened JsonCompare
  import opened JsonPatch
  import opened PatchReference
  import opened LinkedTree

  // ---------------------------------------------------------------------------------------------
  // The edits, with places relative to the two documents
  // ---------------------------------------------------------------------------------------------

  function BelowToken(t: Text, edits: seq<Edit>): seq<Edit> {
    seq(|edits|, i requires 0 <= i < |edits| => Edit([t] + edits[i].tokens, edits[i].change))
  }

  /** The leftover elements are removed one after the other at the same index. */
  function Removals(t: Text, n: nat): seq<Edit> {
    if n == 0 then [] else [Edit([t], Remove)] + Removals(t, n - 1)
  }

  function Additions(items: seq<Value>): seq<Edit> {
    if items == [] then [] else [Edit(["-"], Add(items[0]))] + Additions(items[1..])
  }

  function Edits(from: Value, to: Value, caseSensitive: bool): seq<Edit>
    decreases from, 1, 0
  {
    if !SameType(from, to) then [Edit([], Replace(to))] else
    match from
    case Number(n) => if n != to.n then [Edit([], Replace(to))] else []
    case Str(s) => if s != to.s then [Edit([], Replace(to))] else []
    case Array(items) => EditsOfItems(items, to.items, 0, caseSensitive)
    case Object(ms) =>
      SortedInside(ms, caseSensitive);
      EditsOfMembers(Sort(ms, caseSensitive), Sort(to.members, caseSensitive), caseSensitive, from)
    case _ => []
  }

  function EditsOfItems(from: seq<Value>, to: seq<Value>, i: nat, caseSensitive: bool): seq<Edit>
    requires i <= |from| && i <= |to|
    decreases from, 0, |from| - i
  {
    if i < |from| && i < |to| then
      BelowToken(Decimal(i), Edits(from[i], to[i], caseSensitive)) + EditsOfItems(from, to, i + 1, caseSensitive)
    else
      Removals(Decimal(i), |from| - i) + Additions(to[i..])
  }

  /** The walk along two sorted member lists. */
  function EditsOfMembers(from: seq<Keyed<Value>>, to: seq<Keyed<Value>>, caseSensitive: bool,
                          ghost v: Value): seq<Edit>
    requires Inside(from, v)
    decreases v, 0, |from| + |to|
  {
    if from == [] && to == [] then [] else
    var diff := if from == [] then 1 else if to == [] then -1
                else CompareStrings(from[0].key, to[0].key, caseSensitive);
    if diff == 0 then
      BelowToken(from[0].key, Edits(from[0].value, to[0].value, caseSensitive))
      + EditsOfMembers(from[1..], to[1..], caseSensitive, v)
    else if diff < 0 then
      [Edit([from[0].key], Remove)] + EditsOfMembers(from[1..], to, caseSensitive, v)
    else
      [Edit([to[0].key], Add(to[0].value))] + EditsOfMembers(from, to[1..], caseSensitive, v)
  }

  // ---------------------------------------------------------------------------------------------
  // What generating makes of the two documents
  // ---------------------------------------------------------------------------------------------

  datatype Pair<T> = Pair(a: T, b: T)

  /** Objects are sorted when they are reached, and those with a counterpart only are. */
  function Walked(a: Tree, b: Tree, caseSensitive: bool): Pair<Tree>
    decreases a, 1, 0
  {
    if !SameType(Plain(a), Plain(b)) then Pair(a, b) else
    match a
    case Leaf(_) => Pair(a, b)
    case List(items) =>
      var r := WalkedItems(items, b.items, caseSensitive);
      Pair(List(r.a), List(r.b))
    case Group(ms, tail) =>
      ArrangedInside(ms, tail, caseSensitive);
      var (from, fromTail) := Arranged(ms, tail, caseSensitive);
      var (to, toTail) := Arranged(b.members, b.tail, caseSensitive);
      var r := WalkedMembers(from, to, caseSensitive, a);
      Pair(Group(r.a, fromTail), Group(r.b, toTail))
  }

  function WalkedItems(a: seq<Tree>, b: seq<Tree>, caseSensitive: bool): (r: Pair<seq<Tree>>)
    ensures |r.a| == |a| && |r.b| == |b|
    decreases a
  {
    if a == [] || b == [] then Pair(a, b) else
    var first, rest := Walked(a[0], b[0], caseSensitive), WalkedItems(a[1..], b[1..], caseSensitive);
    Pair([first.a] + rest.a, [first.b] + rest.b)
  }

  function WalkedMembers(a: seq<Keyed<Tree>>, b: seq<Keyed<Tree>>, caseSensitive: bool, ghost t: Tree)
    : (r: Pair<seq<Keyed<Tree>>>)
    requires TreesInside(a, t)
    ensures |r.a| == |a| && |r.b| == |b|
    decreases t, 0, |a| + |b|
  {
    if a == [] || b == [] then Pair(a, b) else
    var diff := CompareStrings(a[0].key, b[0].key, caseSensitive);
    if diff == 0 then
      var first, rest := Walked(a[0].value, b[0].value, caseSensitive), WalkedMembers(a[1..], b[1..], caseSensitive, t);
      Pair([Keyed(a[0].key, first.a)] + rest.a, [Keyed(b[0].key, first.b)] + rest.b)
    else if diff < 0 then
      var rest := WalkedMembers(a[1..], b, caseSensitive, t);
      Pair([a[0]] + rest.a, rest.b)
    else
      var rest := WalkedMembers(a, b[1..], caseSensitive, t);
      Pair(rest.a, [b[0]] + rest.b)
  }

  /** Up to member order, both documents are still the same. */
  lemma {:induction false} WalkedStill(a: Tree, b: Tree, keys: iset<Text>, caseSensitive: bool)
    ensures StillIs(a, Walked(a, b, caseSensitive).a, keys) && StillIs(b, Walked(a, b, caseSensitive).b, keys)
    decreases a, 1, 0
  {
    hide StillIs;
    NothingChanged(a, keys);
    NothingChanged(b, keys);
    if SameType(Plain(a), Plain(b)) {
      match a {
        case Leaf(_) =>
        case List(items) =>
          WalkedItemsStill(items, b.items, keys, caseSensitive);
          var r := WalkedItems(items, b.items, caseSensitive);
          ItemsStillConsistent(items, r.a, keys);
          ItemsStillConsistent(b.items, r.b, keys);
        case Group(ms, tail) =>
          hide Sort, MembersStill;
          ArrangedInside(ms, tail, caseSensitive);
          var (from, fromTail) := Arranged(ms, tail, caseSensitive);
          var (to, toTail) := Arranged(b.members, b.tail, caseSensitive);
          WalkedMembersStill(from, to, keys, caseSensitive, a);
          var r := WalkedMembers(from, to, caseSensitive, a);
          GroupStill(ms, tail, r.a, fromTail, keys, caseSensitive);
          GroupStill(b.members, b.tail, r.b, toTail, keys, caseSensitive);
      }
    }
  }

  lemma {:induction false} WalkedItemsStill(a: seq<Tree>, b: seq<Tree>, keys: iset<Text>, caseSensitive: bool)
    ensures var r := WalkedItems(a, b, caseSensitive); ItemsStill(a, r.a, keys) && ItemsStill(b, r.b, keys)
    decreases a
  {
    hide Walked, StillIs;
    AllUnchanged(a, keys);
    AllUnchanged(b, keys);
    if a != [] && b != [] {
      WalkedStill(a[0], b[0], keys, caseSensitive);
      WalkedItemsStill(a[1..], b[1..], keys, caseSensitive);
    }
  }

  lemma WalkUnfolds(a: seq<Keyed<Tree>>, b: seq<Keyed<Tree>>, caseSensitive: bool, t: Tree)
    requires TreesInside(a, t) && a != [] && b != []
    ensures a[0].value < t && TreesInside(a[1..], t)
    ensures var diff, r := CompareStrings(a[0].key, b[0].key, caseSensitive), WalkedMembers(a, b, caseSensitive, t);
            if diff == 0 then
              var first, rest := Walked(a[0].value, b[0].value, caseSensitive),
                                 WalkedMembers(a[1..], b[1..], caseSensitive, t);
              r == Pair([Keyed(a[0].key, first.a)] + rest.a, [Keyed(b[0].key, first.b)] + rest.b)
            else if diff < 0 then
              var rest := WalkedMembers(a[1..], b, caseSensitive, t);
              r == Pair([a[0]] + rest.a, rest.b)
            else
              var rest := WalkedMembers(a, b[1..], caseSensitive, t);
              r == Pair(rest.a, [b[0]] + rest.b)
  {
    hide Walked, CompareStrings;
    assert a[0] in a;
  }

  lemma {:induction false} WalkedMembersStill(a: seq<Keyed<Tree>>, b: seq<Keyed<Tree>>, keys: iset<Text>,
                                              caseSensitive: bool, t: Tree)
    requires TreesInside(a, t)
    ensures var r := WalkedMembers(a, b, caseSensitive, t); MembersStill(a, r.a, keys) && MembersStill(b, r.b, keys)
    decreases t, 0, |a| + |b|
  {
    MembersUnchanged(a, keys);
    MembersUnchanged(b, keys);
    if a == [] || b == [] {
      return;
    }
    WalkUnfolds(a, b, caseSensitive, t);
    NothingChanged(a[0].value, keys);
    NothingChanged(b[0].value, keys);
    hide Walked, StillIs, CompareStrings, WalkedMembers, MembersStill, TreesInside, Plain, PlainMembers;
    assert [a[0]] + a[1..] == a && [b[0]] + b[1..] == b;
    var diff := CompareStrings(a[0].key, b[0].key, caseSensitive);
    if diff == 0 {
      WalkedStill(a[0].value, b[0].value, keys, caseSensitive);
      WalkedMembersStill(a[1..], b[1..], keys, caseSensitive, t);
      var first, rest := Walked(a[0].value, b[0].value, caseSensitive),
                         WalkedMembers(a[1..], b[1..], caseSensitive, t);
      MembersStillGrow(a[0], first.a, a[1..], rest.a, keys);
      MembersStillGrow(b[0], first.b, b[1..], rest.b, keys);
    } else if diff < 0 {
      WalkedMembersStill(a[1..], b, keys, caseSensitive, t);
      MembersStillGrow(a[0], a[0].value, a[1..], WalkedMembers(a[1..], b, caseSensitive, t).a, keys);
    } else {
      WalkedMembersStill(a, b[1..], keys, caseSensitive, t);
      MembersStillGrow(b[0], b[0].value, b[1..], WalkedMembers(a, b[1..], caseSensitive, t).b, keys);
    }
  }

  // ---------------------------------------------------------------------------------------------
  // The code that generates the patch documents
  // ---------------------------------------------------------------------------------------------

  lemma DocumentsAppend(path: Text, a: seq<Edit>, b: seq<Edit>)
    ensures Documents(path, a + b) == Documents(path, a) + Documents(path, b)
  {
    hide PatchOf, Encode;
  }

  /** The path of a child is put in front of its edits. */
  lemma DocumentsBelow(path: Text, t: Text, edits: seq<Edit>)
    ensures Documents(path, BelowToken(t, edits)) == Documents(path + "/" + Escape(t), edits)
  {
    hide PatchOf, Escape;
    forall i | 0 <= i < |edits|
      ensures Documents(path, BelowToken(t, edits))[i] == Documents(path + "/" + Escape(t), edits)[i]
    {
      var tokens := edits[i].tokens;
      assert ([t] + tokens)[1..] == tokens;
      assert path + Encode([t] + tokens) == path + "/" + Escape(t) + Encode(tokens);
    }
  }

  lemma DocumentsSingle(path: Text, t: Text, change: Change)
    ensures Documents(path, [Edit([t], change)]) == [PatchOf(path + "/" + Escape(t), change)]
    ensures Documents(path, [Edit([], change)]) == [PatchOf(path, change)]
  {
    hide PatchOf, Escape;
    assert [t][1..] == [] && path + Encode([t]) == path + "/" + Escape(t);
    assert path + Encode([]) == path;
  }

  class PatchList {
    var patches: seq<Value>

    constructor ()
      ensures patches == []
    {
      patches := [];
    }

    /** `compose_patch`: without a suffix the patch is for the path itself. */
    method ComposePatch(operation: Text, path: Text, suffix: Option<Text>, value: Option<Value>, ghost change: Change)
      requires operation == OperationName(change) && value == if change.Remove? then None else Some(change.value)
      modifies this
      ensures patches
           == old(patches) + [PatchOf(if suffix.None? then path else path + "/" + Escape(suffix.value), change)]
    {
      hide Escape;
      var full_path := path;
      if suffix.Some? {
        var encoded := EncodeStringAsPointer(suffix.value);
        full_path := path + "/" + encoded[..encoded.Length - 1];
        assert encoded[..encoded.Length - 1] == encoded[..][..encoded.Length - 1] == Escape(suffix.value);
      }
      var ms := [Keyed("op", Str(operation))];
      ms := ms + [Keyed("path", Str(full_path))];
      if value.Some? {
        ms := ms + [Keyed("value", value.value)];
      }
      assert Object(ms) == PatchOf(full_path, change);
      patches := patches + [Object(ms)];
    }

    method CreatePatches(path: Text, from: Tree, to: Tree, caseSensitive: bool) returns (walked: Pair<Tree>)
      modifies this
      ensures patches == old(patches) + Documents(path, Edits(Plain(from), Plain(to), caseSensitive))
      ensures walked == Walked(from, to, caseSensitive)
      decreases from, 1
    {
      hide Documents, PatchOf, Escape, EditsOfItems, EditsOfMembers, Sort, Order;
      walked := Pair(from, to);
      DocumentsSingle(path, [], Replace(Plain(to)));
      NoDocuments(path);
      if !SameType(Plain(from), Plain(to)) {
        ComposePatch("replace", path, None, Some(Plain(to)), Replace(Plain(to)));
        return;
      }
      match from {
        case Leaf(v) =>
          if (v.Number? && v.n != to.value.n) || (v.Str? && v.s != to.value.s) {
            ComposePatch("replace", path, None, Some(to.value), Replace(to.value));
          }
        case List(items) =>
          var r := CreateItemPatches(path, items, to.items, caseSensitive);
          walked := Pair(List(r.a), List(r.b));
        case Group(ms, tail) =>
          ArrangedInside(ms, tail, caseSensitive);
          PlainSorted(ms, caseSensitive);
          PlainSorted(to.members, caseSensitive);
          SortedInside(PlainMembers(ms), caseSensitive);
          var (members, fromTail) := Arranged(ms, tail, caseSensitive);
          var (others, toTail) := Arranged(to.members, to.tail, caseSensitive);
          var r := CreateMemberPatches(path, members, others, caseSensitive, from, Plain(from));
          walked := Pair(Group(r.a, fromTail), Group(r.b, toTail));
      }
    }

    method CreateItemPatches(path: Text, a: seq<Tree>, b: seq<Tree>, caseSensitive: bool)
      returns (walked: Pair<seq<Tree>>)
      modifies this
      ensures patches == old(patches) + Documents(path, EditsOfItems(PlainItems(a), PlainItems(b), 0, caseSensitive))
      ensures walked == WalkedItems(a, b, caseSensitive)
      decreases a, 0
    {
      hide Documents, PatchOf, Escape, Edits, Decimal, Written, WalkedItems, Walked, Plain, WalkedTo;
      ghost var from, to := PlainItems(a), PlainItems(b);
      ghost var done: seq<Edit> := [];
      ghost var all := EditsOfItems(from, to, 0, caseSensitive);
      NothingWritten(patches, path, all);
      ItemsNotWalked(a, b, caseSensitive);
      walked := Pair(a, b);
      var index: nat := 0;
      while index < |a| && index < |b|
        invariant index <= |a| && index <= |b|
        invariant Written(old(patches), patches, path, done, EditsOfItems(from, to, index, caseSensitive), all)
        invariant WalkedTo(walked, index, index, a, b, WalkedItems(a[index..], b[index..], caseSensitive),
                           WalkedItems(a, b, caseSensitive))
      {
        DecimalIsIndex(index);
        WriteBelow(old(patches), patches, path, done, Decimal(index), Edits(from[index], to[index], caseSensitive),
                   EditsOfItems(from, to, index + 1, caseSensitive), all);
        WalkItem(walked, index, a, b, caseSensitive);
        var r := CreatePatches(path + "/" + Decimal(index), walked.a[index], walked.b[index], caseSensitive);
        done := done + BelowToken(Decimal(index), Edits(from[index], to[index], caseSensitive));
        walked := Pair(walked.a[index := r.a], walked.b[index := r.b]);
        index := index + 1;
      }
      ItemsWalked(walked, index, a, b, caseSensitive);
      CreateLeftovers(path, index, |a|, b, old(patches), done, all, from, caseSensitive);
    }

    /** Behind the elements that both lists have. */
    method CreateLeftovers(path: Text, index: nat, length: nat, b: seq<Tree>, ghost before: seq<Value>,
                           ghost written: seq<Edit>, ghost all: seq<Edit>, ghost from: seq<Value>, caseSensitive: bool)
      requires |from| == length && index <= length && index <= |b| && (index == length || index == |b|)
      requires Written(before, patches, path, written, EditsOfItems(from, PlainItems(b), index, caseSensitive), all)
      modifies this
      ensures patches == before + Documents(path, all)
    {
      hide Documents, PatchOf, Escape, Edits, Decimal, Written, Plain;
      ghost var to, done := PlainItems(b), written;
      ghost var token := Decimal(index);
      DecimalIsIndex(index);
      var from_child := index;
      while from_child < length
        invariant index <= from_child <= length
        invariant Written(before, patches, path, done,
                          Removals(token, length - from_child) + Additions(to[index..]), all)
      {
        MoveOver([Edit([token], Remove)], Removals(token, length - from_child - 1), Additions(to[index..]));
        WriteOne(before, patches, path, done, token, Remove,
                 Removals(token, length - from_child - 1) + Additions(to[index..]), all);
        ComposePatch("remove", path, Some(Decimal(index)), None, Remove);
        done := done + [Edit([token], Remove)];
        from_child := from_child + 1;
      }
      assert Removals(token, 0) + Additions(to[index..]) == Additions(to[index..]);
      var to_child := index;
      while to_child < |b|
        invariant index <= to_child <= |b|
        invariant Written(before, patches, path, done, Additions(to[to_child..]), all)
      {
        assert to[to_child..][1..] == to[to_child + 1..];
        WriteOne(before, patches, path, done, "-", Add(to[to_child]), Additions(to[to_child + 1..]), all);
        ComposePatch("add", path, Some("-"), Some(Plain(b[to_child])), Add(to[to_child]));
        done := done + [Edit(["-"], Add(to[to_child]))];
        to_child := to_child + 1;
      }
      AllWritten(before, patches, path, done, all);
    }

    method CreateMemberPatches(path: Text, a: seq<Keyed<Tree>>, b: seq<Keyed<Tree>>, caseSensitive: bool,
                               ghost t: Tree, ghost v: Value)
      returns (walked: Pair<seq<Keyed<Tree>>>)
      requires TreesInside(a, t) && Inside(PlainMembers(a), v)
      modifies this
      ensures patches
           == old(patches) + Documents(path, EditsOfMembers(PlainMembers(a), PlainMembers(b), caseSensitive, v))
      ensures walked == WalkedMembers(a, b, caseSensitive, t)
      decreases t, 0
    {
      hide Documents, PatchOf, Escape, Edits, CompareStrings, Written, EditsOfMembers, BelowToken, WalkedMembers;
      hide Walked, Plain, WalkedTo, TreesInside;
      ghost var from, to := PlainMembers(a), PlainMembers(b);
      ghost var done: seq<Edit> := [];
      ghost var all := EditsOfMembers(from, to, caseSensitive, v);
      NothingWritten(patches, path, all);
      MembersNotWalked(a, b, caseSensitive, t);
      walked := Pair(a, b);
      var i: nat, j: nat := 0, 0;
      while i < |a| || j < |b|
        invariant i <= |a| && j <= |b| && TreesInside(a[i..], t)
        invariant Written(old(patches), patches, path, done, EditsOfMembers(from[i..], to[j..], caseSensitive, v), all)
        invariant WalkedTo(walked, i, j, a, b, WalkedMembers(a[i..], b[j..], caseSensitive, t),
                           WalkedMembers(a, b, caseSensitive, t))
        decreases |a| - i + |b| - j
      {
        FrontWalked(walked, i, j, a, b, WalkedMembers(a[i..], b[j..], caseSensitive, t),
                    WalkedMembers(a, b, caseSensitive, t));
        var diff := if i == |a| then 1 else if j == |b| then -1
                    else CompareStrings(walked.a[i].key, walked.b[j].key, caseSensitive);
        WriteRound(old(patches), patches, path, done, from, i, to, j, caseSensitive, v, diff, all);
        WalkMember(walked, i, j, a, b, caseSensitive, t, diff);
        if diff == 0 {
          var r := CreatePatches(path + "/" + Escape(walked.a[i].key), walked.a[i].value, walked.b[j].value,
                                 caseSensitive);
          done := done + BelowToken(from[i].key, Edits(from[i].value, to[j].value, caseSensitive));
          walked := Pair(walked.a[i := Keyed(walked.a[i].key, r.a)], walked.b[j := Keyed(walked.b[j].key, r.b)]);
          i, j := i + 1, j + 1;
        } else if diff < 0 {
          ComposePatch("remove", path, Some(walked.a[i].key), None, Remove);
          done := done + [Edit([from[i].key], Remove)];
          i := i + 1;
        } else {
          ComposePatch("add", path, Some(walked.b[j].key), Some(Plain(walked.b[j].value)), Add(to[j].value));
          done := done + [Edit([to[j].key], Add(to[j].value))];
          j := j + 1;
        }
      }
      assert from[i..] == [] && to[j..] == [];
      WalkEnds(caseSensitive, v);
      AllWritten(old(patches), patches, path, done, all);
      MembersWalked(walked, a, b, caseSensitive, t);
    }
  }

  /** Of two lists the first `i` and `j` elements have been walked past, and walking the rest completes the result. */
  predicate WalkedTo<T(==)>(walked: Pair<seq<T>>, i: nat, j: nat, a: seq<T>, b: seq<T>, rest: Pair<seq<T>>,
                            result: Pair<seq<T>>) {
    && i <= |a| == |walked.a| && j <= |b| == |walked.b| && walked.a[i..] == a[i..] && walked.b[j..] == b[j..]
    && result == Pair(walked.a[..i] + rest.a, walked.b[..j] + rest.b)
  }

  lemma FrontWalked<T>(walked: Pair<seq<T>>, i: nat, j: nat, a: seq<T>, b: seq<T>, rest: Pair<seq<T>>,
                       result: Pair<seq<T>>)
    requires WalkedTo(walked, i, j, a, b, rest, result)
    ensures |walked.a| == |a| && |walked.b| == |b|
    ensures i < |a| ==> walked.a[i] == a[i] && a[i..][0] == a[i] && a[i..][1..] == a[i + 1..]
    ensures j < |b| ==> walked.b[j] == b[j] && b[j..][0] == b[j] && b[j..][1..] == b[j + 1..]
  {
    if i < |a| {
      assert walked.a[i..][0] == walked.a[i] && a[i..][0] == a[i];
    }
    if j < |b| {
      assert walked.b[j..][0] == walked.b[j] && b[j..][0] == b[j];
    }
  }

  lemma Advance<T>(walked: Pair<seq<T>>, i: nat, j: nat, a: seq<T>, b: seq<T>, x: T, y: T, rest: Pair<seq<T>>,
                   result: Pair<seq<T>>)
    requires i < |a| && j < |b|
    requires WalkedTo(walked, i, j, a, b, Pair([x] + rest.a, [y] + rest.b), result)
    ensures WalkedTo(Pair(walked.a[i := x], walked.b[j := y]), i + 1, j + 1, a, b, rest, result)
  {
    FrontWalked(walked, i, j, a, b, Pair([x] + rest.a, [y] + rest.b), result);
    assert walked.a[i := x][i + 1..] == walked.a[i..][1..] && walked.b[j := y][j + 1..] == walked.b[j..][1..];
    assert walked.a[i := x][..i + 1] == walked.a[..i] + [x] && walked.b[j := y][..j + 1] == walked.b[..j] + [y];
    assert walked.a[..i] + [x] + rest.a == walked.a[..i] + ([x] + rest.a);
    assert walked.b[..j] + [y] + rest.b == walked.b[..j] + ([y] + rest.b);
  }

  lemma AdvanceFrom<T>(walked: Pair<seq<T>>, i: nat, j: nat, a: seq<T>, b: seq<T>, rest: Pair<seq<T>>,
                       result: Pair<seq<T>>)
    requires i < |a| && WalkedTo(walked, i, j, a, b, Pair([a[i]] + rest.a, rest.b), result)
    ensures WalkedTo(walked, i + 1, j, a, b, rest, result)
  {
    FrontWalked(walked, i, j, a, b, Pair([a[i]] + rest.a, rest.b), result);
    assert walked.a[i + 1..] == walked.a[i..][1..];
    assert walked.a[..i + 1] == walked.a[..i] + [a[i]];
    assert walked.a[..i] + [a[i]] + rest.a == walked.a[..i] + ([a[i]] + rest.a);
  }

  lemma AdvanceTo<T>(walked: Pair<seq<T>>, i: nat, j: nat, a: seq<T>, b: seq<T>, rest: Pair<seq<T>>,
                     result: Pair<seq<T>>)
    requires j < |b| && WalkedTo(walked, i, j, a, b, Pair(rest.a, [b[j]] + rest.b), result)
    ensures WalkedTo(walked, i, j + 1, a, b, rest, result)
  {
    FrontWalked(walked, i, j, a, b, Pair(rest.a, [b[j]] + rest.b), result);
    assert walked.b[j + 1..] == walked.b[j..][1..];
    assert walked.b[..j + 1] == walked.b[..j] + [b[j]];
    assert walked.b[..j] + [b[j]] + rest.b == walked.b[..j] + ([b[j]] + rest.b);
  }

  lemma NotWalked<T>(a: seq<T>, b: seq<T>, result: Pair<seq<T>>)
    ensures WalkedTo(Pair(a, b), 0, 0, a, b, result, result)
  {
    assert a[..0] + result.a == result.a && b[..0] + result.b == result.b;
  }

  lemma RestUnchanged<T>(walked: Pair<seq<T>>, i: nat, j: nat, a: seq<T>, b: seq<T>, result: Pair<seq<T>>)
    requires i <= |a| && j <= |b| && WalkedTo(walked, i, j, a, b, Pair(a[i..], b[j..]), result)
    ensures walked == result
  {
    assert walked.a[..i] + walked.a[i..] == walked.a && walked.b[..j] + walked.b[j..] == walked.b;
  }

  lemma ItemsNotWalked(a: seq<Tree>, b: seq<Tree>, caseSensitive: bool)
    ensures WalkedTo(Pair(a, b), 0, 0, a, b, WalkedItems(a[0..], b[0..], caseSensitive),
                     WalkedItems(a, b, caseSensitive))
  {
    hide WalkedTo, WalkedItems;
    assert a[0..] == a && b[0..] == b;
    NotWalked(a, b, WalkedItems(a, b, caseSensitive));
  }

  lemma WalkItem(walked: Pair<seq<Tree>>, i: nat, a: seq<Tree>, b: seq<Tree>, caseSensitive: bool)
    requires i < |a| && i < |b|
    requires WalkedTo(walked, i, i, a, b, WalkedItems(a[i..], b[i..], caseSensitive), WalkedItems(a, b, caseSensitive))
    ensures |walked.a| == |a| && |walked.b| == |b| && walked.a[i] == a[i] && walked.b[i] == b[i]
    ensures var r := Walked(a[i], b[i], caseSensitive);
            WalkedTo(Pair(walked.a[i := r.a], walked.b[i := r.b]), i + 1, i + 1, a, b,
                     WalkedItems(a[i + 1..], b[i + 1..], caseSensitive), WalkedItems(a, b, caseSensitive))
  {
    hide Walked;
    FrontWalked(walked, i, i, a, b, WalkedItems(a[i..], b[i..], caseSensitive), WalkedItems(a, b, caseSensitive));
    var r := Walked(a[i], b[i], caseSensitive);
    Advance(walked, i, i, a, b, r.a, r.b, WalkedItems(a[i + 1..], b[i + 1..], caseSensitive),
            WalkedItems(a, b, caseSensitive));
  }

  lemma ItemsWalked(walked: Pair<seq<Tree>>, i: nat, a: seq<Tree>, b: seq<Tree>, caseSensitive: bool)
    requires i <= |a| && i <= |b| && (i == |a| || i == |b|)
    requires WalkedTo(walked, i, i, a, b, WalkedItems(a[i..], b[i..], caseSensitive), WalkedItems(a, b, caseSensitive))
    ensures walked == WalkedItems(a, b, caseSensitive)
  {
    RestUnchanged(walked, i, i, a, b, WalkedItems(a, b, caseSensitive));
  }

  lemma MembersNotWalked(a: seq<Keyed<Tree>>, b: seq<Keyed<Tree>>, caseSensitive: bool, t: Tree)
    requires TreesInside(a, t)
    ensures TreesInside(a[0..], t)
    ensures WalkedTo(Pair(a, b), 0, 0, a, b, WalkedMembers(a[0..], b[0..], caseSensitive, t),
                     WalkedMembers(a, b, caseSensitive, t))
  {
    hide WalkedTo, WalkedMembers;
    assert a[0..] == a && b[0..] == b;
    NotWalked(a, b, WalkedMembers(a, b, caseSensitive, t));
  }

  /** One round of the walk. */
  lemma WalkMember(walked: Pair<seq<Keyed<Tree>>>, i: nat, j: nat, a: seq<Keyed<Tree>>, b: seq<Keyed<Tree>>,
                   caseSensitive: bool, t: Tree, diff: int)
    requires TreesInside(a, t) && i <= |a| && j <= |b| && (i < |a| || j < |b|) && TreesInside(a[i..], t)
    requires diff == if i == |a| then 1 else if j == |b| then -1
                     else CompareStrings(a[i].key, b[j].key, caseSensitive)
    requires WalkedTo(walked, i, j, a, b, WalkedMembers(a[i..], b[j..], caseSensitive, t),
                      WalkedMembers(a, b, caseSensitive, t))
    ensures i < |a| ==> a[i].value < t && TreesInside(a[i + 1..], t)
    ensures var all := WalkedMembers(a, b, caseSensitive, t);
            if diff == 0 then
              var r := Walked(a[i].value, b[j].value, caseSensitive);
              && |walked.a| == |a| && |walked.b| == |b|
              && WalkedTo(Pair(walked.a[i := Keyed(a[i].key, r.a)], walked.b[j := Keyed(b[j].key, r.b)]), i + 1, j + 1,
                          a, b, WalkedMembers(a[i + 1..], b[j + 1..], caseSensitive, t), all)
            else if diff < 0 then
              WalkedTo(walked, i + 1, j, a, b, WalkedMembers(a[i + 1..], b[j..], caseSensitive, t), all)
            else WalkedTo(walked, i, j + 1, a, b, WalkedMembers(a[i..], b[j + 1..], caseSensitive, t), all)
  {
    hide Walked, CompareStrings;
    var all, rest := WalkedMembers(a, b, caseSensitive, t), WalkedMembers(a[i..], b[j..], caseSensitive, t);
    if i < |a| {
      assert a[i] in a && a[i..][0] == a[i] && a[i..][1..] == a[i + 1..] && a[i..] == [a[i]] + a[i + 1..];
    }
    if j < |b| {
      assert b[j..][0] == b[j] && b[j..][1..] == b[j + 1..] && b[j..] == [b[j]] + b[j + 1..];
    }
    if diff == 0 {
      var r, behind := Walked(a[i].value, b[j].value, caseSensitive),
                       WalkedMembers(a[i + 1..], b[j + 1..], caseSensitive, t);
      Advance(walked, i, j, a, b, Keyed(a[i].key, r.a), Keyed(b[j].key, r.b), behind, all);
    } else if diff < 0 {
      AdvanceFrom(walked, i, j, a, b, WalkedMembers(a[i + 1..], b[j..], caseSensitive, t), all);
    } else {
      AdvanceTo(walked, i, j, a, b, WalkedMembers(a[i..], b[j + 1..], caseSensitive, t), all);
    }
  }

  lemma MembersWalked(walked: Pair<seq<Keyed<Tree>>>, a: seq<Keyed<Tree>>, b: seq<Keyed<Tree>>, caseSensitive: bool,
                      t: Tree)
    requires TreesInside(a, t) && TreesInside(a[|a|..], t)
    requires WalkedTo(walked, |a|, |b|, a, b, WalkedMembers(a[|a|..], b[|b|..], caseSensitive, t),
                      WalkedMembers(a, b, caseSensitive, t))
    ensures walked == WalkedMembers(a, b, caseSensitive, t)
  {
    RestUnchanged(walked, |a|, |b|, a, b, WalkedMembers(a, b, caseSensitive, t));
  }

  lemma UnfoldWalk(from: seq<Keyed<Value>>, i: nat, to: seq<Keyed<Value>>, j: nat, caseSensitive: bool, v: Value,
                   diff: int)
    requires Inside(from, v) && i <= |from| && j <= |to| && (i < |from| || j < |to|)
    requires diff == if i == |from| then 1 else if j == |to| then -1
                     else CompareStrings(from[i].key, to[j].key, caseSensitive)
    ensures i < |from| ==> from[i].value < v
    ensures EditsOfMembers(from[i..], to[j..], caseSensitive, v)
         == if diff == 0 then
              BelowToken(from[i].key, Edits(from[i].value, to[j].value, caseSensitive))
              + EditsOfMembers(from[i + 1..], to[j + 1..], caseSensitive, v)
            else if diff < 0 then
              [Edit([from[i].key], Remove)] + EditsOfMembers(from[i + 1..], to[j..], caseSensitive, v)
            else [Edit([to[j].key], Add(to[j].value))] + EditsOfMembers(from[i..], to[j + 1..], caseSensitive, v)
  {
    hide Edits, CompareStrings, BelowToken;
    if i < |from| {
      assert from[i] in from && from[i..][0] == from[i] && from[i..][1..] == from[i + 1..];
    }
    if j < |to| {
      assert to[j..][0] == to[j] && to[j..][1..] == to[j + 1..];
    }
  }

  lemma WalkEnds(caseSensitive: bool, v: Value)
    ensures EditsOfMembers([], [], caseSensitive, v) == []
  {}

  /** Of all edits those in `done` have been written behind the patches there were before, and `rest` are to come. */
  predicate Written(before: seq<Value>, now: seq<Value>, path: Text, done: seq<Edit>, rest: seq<Edit>, all: seq<Edit>) {
    done + rest == all && now == before + Documents(path, done)
  }

  lemma NothingWritten(before: seq<Value>, path: Text, all: seq<Edit>)
    ensures Written(before, before, path, [], all, all)
  {}

  lemma AllWritten(before: seq<Value>, now: seq<Value>, path: Text, done: seq<Edit>, all: seq<Edit>)
    requires Written(before, now, path, done, [], all)
    ensures now == before + Documents(path, all)
  {
    assert done + [] == done;
  }

  lemma WriteOne(before: seq<Value>, now: seq<Value>, path: Text, done: seq<Edit>, t: Text, change: Change,
                 rest: seq<Edit>, all: seq<Edit>)
    requires Written(before, now, path, done, [Edit([t], change)] + rest, all)
    ensures Written(before, now + [PatchOf(path + "/" + Escape(t), change)], path, done + [Edit([t], change)], rest,
                    all)
  {
    hide Documents, PatchOf, Escape;
    DocumentsSingle(path, t, change);
    DocumentsAppend(path, done, [Edit([t], change)]);
    MoveOver(done, [Edit([t], change)], rest);
  }

  lemma WriteBelow(before: seq<Value>, now: seq<Value>, path: Text, done: seq<Edit>, t: Text, edits: seq<Edit>,
                   rest: seq<Edit>, all: seq<Edit>)
    requires Written(before, now, path, done, BelowToken(t, edits) + rest, all)
    ensures Written(before, now + Documents(path + "/" + Escape(t), edits), path, done + BelowToken(t, edits), rest,
                    all)
  {
    hide Documents, Escape, BelowToken;
    DocumentsBelow(path, t, edits);
    DocumentsAppend(path, done, BelowToken(t, edits));
    MoveOver(done, BelowToken(t, edits), rest);
  }

  lemma NoDocuments(path: Text)
    ensures Documents(path, []) == []
  {}

  lemma MoveOver(a: seq<Edit>, b: seq<Edit>, c: seq<Edit>)
    ensures a + (b + c) == (a + b) + c
  {}

  /** What one round of the walk has to write. */
  lemma WriteRound(before: seq<Value>, now: seq<Value>, path: Text, done: seq<Edit>, from: seq<Keyed<Value>>, i: nat,
                   to: seq<Keyed<Value>>, j: nat, caseSensitive: bool, v: Value, diff: int, all: seq<Edit>)
    requires Inside(from, v) && i <= |from| && j <= |to| && (i < |from| || j < |to|)
    requires diff == if i == |from| then 1 else if j == |to| then -1
                     else CompareStrings(from[i].key, to[j].key, caseSensitive)
    requires Written(before, now, path, done, EditsOfMembers(from[i..], to[j..], caseSensitive, v), all)
    ensures if diff == 0 then
              var es := Edits(from[i].value, to[j].value, caseSensitive);
              Written(before, now + Documents(path + "/" + Escape(from[i].key), es), path,
                      done + BelowToken(from[i].key, es), EditsOfMembers(from[i + 1..], to[j + 1..], caseSensitive, v),
                      all)
            else if diff < 0 then
              Written(before, now + [PatchOf(path + "/" + Escape(from[i].key), Remove)], path,
                      done + [Edit([from[i].key], Remove)],
                      EditsOfMembers(from[i + 1..], to[j..], caseSensitive, v), all)
            else
              Written(before, now + [PatchOf(path + "/" + Escape(to[j].key), Add(to[j].value))], path,
                      done + [Edit([to[j].key], Add(to[j].value))],
                      EditsOfMembers(from[i..], to[j + 1..], caseSensitive, v), all)
  {
    hide Documents, PatchOf, Escape, Edits, CompareStrings, Written, EditsOfMembers, BelowToken;
    UnfoldWalk(from, i, to, j, caseSensitive, v, diff);
    if diff == 0 {
      WriteBelow(before, now, path, done, from[i].key, Edits(from[i].value, to[j].value, caseSensitive),
                 EditsOfMembers(from[i + 1..], to[j + 1..], caseSensitive, v), all);
    } else if diff < 0 {
      WriteOne(before, now, path, done, from[i].key, Remove,
               EditsOfMembers(from[i + 1..], to[j..], caseSensitive, v), all);
    } else {
      WriteOne(before, now, path, done, to[j].key, Add(to[j].value),
               EditsOfMembers(from[i..], to[j + 1..], caseSensitive, v), all);
    }
  }

  /** `cJSONUtils_GeneratePatches` and its case-sensitive variant: the patches, and what has become of the two. */
  method GeneratePatches(from: Tree, to: Tree, caseSensitive: bool) returns (r: Value, walked: Pair<Tree>)
    ensures r == Array(Documents([], Edits(Plain(from), Plain(to), caseSensitive)))
    ensures walked == Walked(from, to, caseSensitive)
  {
    var list := new PatchList();
    walked := list.CreatePatches([], from, to, caseSensitive);
    r := Array(list.patches);
  }

  // ---------------------------------------------------------------------------------------------
  // The edits reach the target
  // ---------------------------------------------------------------------------------------------

  lemma {:induction false} ChangedAllAppend(d: NValue, a: seq<Edit>, b: seq<Edit>)
    requires ChangedAll(d, a).Some?
    ensures ChangedAll(d, a + b) == ChangedAll(ChangedAll(d, a).value, b)
    decreases |a|
  {
    hide Changed;
    if a == [] {
      assert a + b == b;
    } else {
      assert (a + b)[1..] == a[1..] + b;
      ChangedAllAppend(Changed(d, a[0].tokens, a[0].change).value, a[1..], b);
    }
  }

  /** At the root, generated edits do nothing but replace. */
  predicate OnlyReplaceRoot(edits: seq<Edit>) {
    forall i :: 0 <= i < |edits| ==> edits[i].tokens == [] ==> edits[i].change.Replace?
  }

  /** An edit below a child changes that child and nothing else. */
  lemma ChangedBelow(d: NValue, t: Text, e: Edit)
    requires NChild(d, t).Some? && Changed(NChild(d, t).value, e.tokens, e.change).Some? && OnlyReplaceRoot([e])
    ensures Changed(d, [t] + e.tokens, e.change)
         == Some(NWithChild(d, t, Changed(NChild(d, t).value, e.tokens, e.change).value))
  {
    hide Norm;
    assert [e][0] == e;
    assert ([t] + e.tokens)[1..] == e.tokens;
  }

  /** A patch below a child changes only that child's subtree. */
  lemma {:induction false} FrameBelow(d: NValue, t: Text, edits: seq<Edit>)
    requires NChild(d, t).Some? && ChangedAll(NChild(d, t).value, edits).Some? && OnlyReplaceRoot(edits)
    ensures ChangedAll(d, BelowToken(t, edits)) == Some(NWithChild(d, t, ChangedAll(NChild(d, t).value, edits).value))
    decreases |edits|
  {
    hide Changed, NWithChild, NChild;
    var c := NChild(d, t).value;
    if edits == [] {
      SameChild(d, t);
    } else {
      assert OnlyReplaceRoot([edits[0]]);
      ChangedBelow(d, t, edits[0]);
      var c' := Changed(c, edits[0].tokens, edits[0].change).value;
      ChildOfWithChild(d, t, c', ChangedAll(c, edits).value);
      assert BelowToken(t, edits)[1..] == BelowToken(t, edits[1..]);
      FrameBelow(NWithChild(d, t, c'), t, edits[1..]);
    }
  }

  lemma SameChild(d: NValue, t: Text)
    requires NChild(d, t).Some?
    ensures NWithChild(d, t, NChild(d, t).value) == d
  {
    match d {
      case NArray(items) =>
        assert items[DigitsValue(t) := items[DigitsValue(t)]] == items;
      case NObject(m) =>
        assert m[t := m[t]] == m;
    }
  }

  lemma {:induction false} RemovalsReach(items: seq<NValue>, i: nat, n: nat)
    requires |items| == i + n
    ensures ChangedAll(NArray(items), Removals(Decimal(i), n)) == Some(NArray(items[..i]))
    decreases n
  {
    if n == 0 {
      assert items[..i] == items;
    } else {
      DecimalIsIndex(i);
      hide Decimal;
      RemovalsReach(RemoveAt(items, i), i, n - 1);
      assert RemoveAt(items, i)[..i] == items[..i];
      assert Removals(Decimal(i), n)[1..] == Removals(Decimal(i), n - 1);
    }
  }

  lemma {:induction false} AdditionsReach(items: seq<NValue>, more: seq<Value>)
    ensures ChangedAll(NArray(items), Additions(more)) == Some(NArray(items + NormItems(more)))
    decreases |more|
  {
    hide Norm;
    if more == [] {
      assert items + NormItems(more) == items;
    } else {
      AdditionsReach(items + [Norm(more[0])], more[1..]);
      assert items + [Norm(more[0])] + NormItems(more[1..]) == items + NormItems(more);
      assert Additions(more)[1..] == Additions(more[1..]);
    }
  }

  lemma {:induction false} RemovalsReplace(t: Text, n: nat, items: seq<Value>)
    ensures OnlyReplaceRoot(Removals(t, n)) && OnlyReplaceRoot(Additions(items))
    decreases n + |items|
  {
    if n > 0 {
      RemovalsReplace(t, n - 1, items);
    } else if items != [] {
      RemovalsReplace(t, n, items[1..]);
    }
  }

  /** One part of the edits after the other. */
  lemma ReachThrough(d: NValue, a: seq<Edit>, between: NValue, b: seq<Edit>, goal: NValue)
    requires ChangedAll(d, a) == Some(between) && ChangedAll(between, b) == Some(goal)
    requires OnlyReplaceRoot(a) && OnlyReplaceRoot(b)
    ensures ChangedAll(d, a + b) == Some(goal) && OnlyReplaceRoot(a + b)
  {
    ChangedAllAppend(d, a, b);
  }

  lemma BelowReplacesNoRoot(t: Text, edits: seq<Edit>, change: Change)
    ensures OnlyReplaceRoot(BelowToken(t, edits)) && OnlyReplaceRoot([Edit([t], change)])
  {}

  /** After `i` rounds the first `i` elements are the target's. */
  lemma {:induction false} ItemsReach(from: seq<Value>, to: seq<Value>, i: nat, keys: iset<Text>, caseSensitive: bool)
    requires i <= |from| && i <= |to| && Separates(keys, caseSensitive)
    requires forall j :: 0 <= j < |from| ==> Fine(from[j], keys)
    requires forall j :: 0 <= j < |to| ==> Fine(to[j], keys)
    ensures OnlyReplaceRoot(EditsOfItems(from, to, i, caseSensitive))
    ensures ChangedAll(NArray(NormItems(to[..i] + from[i..])), EditsOfItems(from, to, i, caseSensitive))
         == Some(NArray(NormItems(to)))
    decreases from, 0, |from| - i
  {
    hide Norm, Fine, ChangedAll, Edits, Decimal, OnlyReplaceRoot, BelowToken, Separates, Removals, Additions;
    if i < |from| && i < |to| {
      EditsReach(from[i], to[i], keys, caseSensitive);
      ItemsReach(from, to, i + 1, keys, caseSensitive);
      ItemReached(from, to, i, Edits(from[i], to[i], caseSensitive));
      BelowReplacesNoRoot(Decimal(i), Edits(from[i], to[i], caseSensitive), Remove);
      hide NormItems;
      ReachThrough(NArray(NormItems(to[..i] + from[i..])),
                   BelowToken(Decimal(i), Edits(from[i], to[i], caseSensitive)),
                   NArray(NormItems(to[..i + 1] + from[i + 1..])), EditsOfItems(from, to, i + 1, caseSensitive),
                   NArray(NormItems(to)));
    } else {
      var now := NormItems(to[..i] + from[i..]);
      RemovalsReach(now, i, |from| - i);
      AdditionsReach(now[..i], to[i..]);
      assert now[..i] + NormItems(to[i..]) == NormItems(to);
      RemovalsReplace(Decimal(i), |from| - i, to[i..]);
      ReachThrough(NArray(now), Removals(Decimal(i), |from| - i), NArray(now[..i]), Additions(to[i..]),
                   NArray(NormItems(to)));
    }
  }

  lemma ItemReached(from: seq<Value>, to: seq<Value>, i: nat, es: seq<Edit>)
    requires i < |from| && i < |to| && OnlyReplaceRoot(es) && ChangedAll(Norm(from[i]), es) == Some(Norm(to[i]))
    ensures ChangedAll(NArray(NormItems(to[..i] + from[i..])), BelowToken(Decimal(i), es))
         == Some(NArray(NormItems(to[..i + 1] + from[i + 1..])))
  {
    DecimalIsIndex(i);
    hide Norm, ChangedAll, Decimal, OnlyReplaceRoot, BelowToken;
    var now := NormItems(to[..i] + from[i..]);
    assert now[i] == Norm(from[i]);
    FrameBelow(NArray(now), Decimal(i), es);
    assert now[i := Norm(to[i])] == NormItems(to[..i + 1] + from[i + 1..]);
  }

  /** Members not yet walked past are as in `from`, those walked past, here in `d`, as in the target. */
  lemma {:induction false} MembersReach(d: map<Text, NValue>, from: seq<Keyed<Value>>, to: seq<Keyed<Value>>,
                                        keys: iset<Text>, caseSensitive: bool, v: Value)
    requires Inside(from, v) && Separates(keys, caseSensitive)
    requires FineMembers(from, keys) && FineMembers(to, keys) && Sorted(from, caseSensitive)
    requires Sorted(to, caseSensitive)
    requires d.Keys !! NormMembers(from).Keys && d.Keys !! NormMembers(to).Keys
    ensures OnlyReplaceRoot(EditsOfMembers(from, to, caseSensitive, v))
    ensures ChangedAll(NObject(d + NormMembers(from)), EditsOfMembers(from, to, caseSensitive, v))
         == Some(NObject(d + NormMembers(to)))
    decreases v, 0, |from| + |to|
  {
    hide Norm, Fine, ChangedAll, Edits, CompareStrings, NormMembers, FineMembers, Sorted, OnlyReplaceRoot, BelowToken;
    hide Separates;
    if from == [] && to == [] {
      NothingToReach(d, caseSensitive, v);
      return;
    }
    var diff := WalkStep(from, to, keys, caseSensitive);
    var now, goal := NObject(d + NormMembers(from)), NObject(d + NormMembers(to));
    if diff == 0 {
      assert from[0] in from;
      var k, es := from[0].key, Edits(from[0].value, to[0].value, caseSensitive);
      EditsReach(from[0].value, to[0].value, keys, caseSensitive);
      OneMemberChanged(d + NormMembers(from), k, es, Norm(to[0].value));
      BelowReplacesNoRoot(k, es, Remove);
      var d' := d[k := Norm(to[0].value)];
      UpdateShared(d, NormMembers(from), NormMembers(from[1..]), k, Norm(to[0].value));
      UpdateShared(d, NormMembers(to), NormMembers(to[1..]), k, Norm(to[0].value));
      MembersReach(d', from[1..], to[1..], keys, caseSensitive, v);
      ReachThrough(now, BelowToken(k, es), NObject(d' + NormMembers(from[1..])),
                   EditsOfMembers(from[1..], to[1..], caseSensitive, v), goal);
    } else if diff < 0 {
      var e := Edit([from[0].key], Remove);
      DropOne(d, NormMembers(from), NormMembers(from[1..]), from[0].key);
      OneMemberDropped(d + NormMembers(from), from[0].key);
      BelowReplacesNoRoot(from[0].key, [], Remove);
      MembersReach(d, from[1..], to, keys, caseSensitive, v);
      ReachThrough(now, [e], NObject(d + NormMembers(from[1..])),
                   EditsOfMembers(from[1..], to, caseSensitive, v), goal);
    } else {
      var k, e := to[0].key, Edit([to[0].key], Add(to[0].value));
      UpdateNew(d, NormMembers(from), k, Norm(to[0].value));
      UpdateShared(d, NormMembers(to), NormMembers(to[1..]), k, Norm(to[0].value));
      OneMemberAdded(d + NormMembers(from), k, to[0].value);
      BelowReplacesNoRoot(k, [], e.change);
      MembersReach(d[k := Norm(to[0].value)], from, to[1..], keys, caseSensitive, v);
      ReachThrough(now, [e], NObject(d[k := Norm(to[0].value)] + NormMembers(from)),
                   EditsOfMembers(from, to[1..], caseSensitive, v), goal);
    }
  }

  lemma NothingToReach(d: map<Text, NValue>, caseSensitive: bool, v: Value)
    ensures EditsOfMembers([], [], caseSensitive, v) == [] && OnlyReplaceRoot([])
    ensures ChangedAll(NObject(d + NormMembers([])), []) == Some(NObject(d + NormMembers([])))
  {}

  lemma OneMemberDropped(m: map<Text, NValue>, k: Text)
    requires k in m
    ensures ChangedAll(NObject(m), [Edit([k], Remove)]) == Some(NObject(m - {k}))
  {
    var e := Edit([k], Remove);
    assert Changed(NObject(m), e.tokens, e.change) == Some(NObject(m - {k}));
    assert ChangedAll(NObject(m - {k}), []) == Some(NObject(m - {k}));
    assert [e][1..] == [];
  }

  lemma OneMemberAdded(m: map<Text, NValue>, k: Text, v: Value)
    ensures ChangedAll(NObject(m), [Edit([k], Add(v))]) == Some(NObject(m[k := Norm(v)]))
  {
    hide Norm;
    var e := Edit([k], Add(v));
    assert Changed(NObject(m), e.tokens, e.change) == Some(NObject(m[k := Norm(v)]));
    assert ChangedAll(NObject(m[k := Norm(v)]), []) == Some(NObject(m[k := Norm(v)]));
    assert [e][1..] == [];
  }

  lemma OneMemberChanged(m: map<Text, NValue>, k: Text, es: seq<Edit>, n: NValue)
    requires k in m && ChangedAll(m[k], es) == Some(n) && OnlyReplaceRoot(es)
    ensures ChangedAll(NObject(m), BelowToken(k, es)) == Some(NObject(m[k := n]))
  {
    hide ChangedAll, OnlyReplaceRoot, BelowToken;
    FrameBelow(NObject(m), k, es);
  }

  /** What one round of the walk compares, and what is known of the keys then. */
  lemma WalkStep(from: seq<Keyed<Value>>, to: seq<Keyed<Value>>, keys: iset<Text>, caseSensitive: bool)
    returns (diff: int)
    requires (from != [] || to != []) && Separates(keys, caseSensitive)
    requires FineMembers(from, keys) && FineMembers(to, keys) && Sorted(from, caseSensitive)
    requires Sorted(to, caseSensitive)
    ensures diff == if from == [] then 1 else if to == [] then -1
                    else CompareStrings(from[0].key, to[0].key, caseSensitive)
    ensures diff <= 0 ==> from != [] && Taken(from, keys, caseSensitive)
    ensures diff >= 0 ==> to != [] && Taken(to, keys, caseSensitive)
    ensures diff == 0 ==> from[0].key == to[0].key
    ensures diff < 0 ==> from[0].key !in NormMembers(to)
    ensures diff > 0 ==> to[0].key !in NormMembers(from)
  {
    hide Fine, Norm, CompareStrings, NormMembers;
    diff := if from == [] then 1 else if to == [] then -1 else CompareStrings(from[0].key, to[0].key, caseSensitive);
    NormMembersKeys(from);
    NormMembersKeys(to);
    if from != [] {
      TailFine(from, keys, caseSensitive);
      NormMembersAt(from, 0);
    }
    if to != [] {
      TailFine(to, keys, caseSensitive);
      NormMembersAt(to, 0);
    }
    if from != [] && to != [] {
      CompareIsZero(from[0].key, to[0].key, keys, caseSensitive);
      if diff < 0 && HasKey(to, from[0].key) {
        HeadFound(from, to, caseSensitive);
        assert false;
      }
      if diff > 0 && HasKey(from, to[0].key) {
        HeadFound(to, from, caseSensitive);
        CompareAgainst(from[0], to[0], caseSensitive);
        assert false;
      }
    }
  }

  lemma CompareAgainst(a: Keyed<Value>, b: Keyed<Value>, caseSensitive: bool)
    ensures Compare(a, b, caseSensitive) > 0 ==> Compare(b, a, caseSensitive) < 0
  {
    StrCmpAntisymmetric(Fold(b.key, caseSensitive), Fold(a.key, caseSensitive));
  }

  /** Everything known of a sorted list whose head is walked past. */
  ghost predicate Taken(ms: seq<Keyed<Value>>, keys: iset<Text>, caseSensitive: bool)
    requires ms != []
  {
    && FineMembers(ms[1..], keys) && Sorted(ms[1..], caseSensitive)
    && NormMembers(ms[1..]) == NormMembers(ms) - {ms[0].key}
    && Fine(ms[0].value, keys) && ms[0].key in NormMembers(ms) && NormMembers(ms)[ms[0].key] == Norm(ms[0].value)
  }

  lemma UpdateShared(d: map<Text, NValue>, m: map<Text, NValue>, rest: map<Text, NValue>, k: Text, n: NValue)
    requires d.Keys !! m.Keys && k in m && rest == m - {k}
    ensures (d + m)[k := n] == d[k := n] + rest && d[k := n].Keys !! rest.Keys
    ensures m[k] == n ==> d + m == d[k := n] + rest
  {}

  lemma UpdateNew(d: map<Text, NValue>, m: map<Text, NValue>, k: Text, n: NValue)
    requires d.Keys !! m.Keys && k !in m
    ensures (d + m)[k := n] == d[k := n] + m && d[k := n].Keys !! m.Keys
  {}

  lemma DropOne(d: map<Text, NValue>, m: map<Text, NValue>, rest: map<Text, NValue>, k: Text)
    requires d.Keys !! m.Keys && k in m && rest == m - {k}
    ensures k in d + m && (d + m) - {k} == d + rest && d.Keys !! rest.Keys
  {}

  /** The edits turn the one document into the other, up to member order. */
  lemma {:induction false} EditsReach(from: Value, to: Value, keys: iset<Text>, caseSensitive: bool)
    requires Fine(from, keys) && Fine(to, keys) && Separates(keys, caseSensitive)
    ensures OnlyReplaceRoot(Edits(from, to, caseSensitive))
    ensures ChangedAll(Norm(from), Edits(from, to, caseSensitive)) == Some(Norm(to))
    decreases from, 1, 0
  {
    hide EditsOfItems, EditsOfMembers, Sort, NormMembers, ChangeHere, FineMembers, Separates;
    if SameType(from, to) {
      match from {
        case Array(items) =>
          FineArray(items, keys);
          FineArray(to.items, keys);
          ItemsReach(items, to.items, 0, keys, caseSensitive);
          assert to.items[..0] + items[0..] == items;
        case Object(ms) =>
          hide ChangedAll, NormMembers, Sorted;
          SortedInside(ms, caseSensitive);
          FineObject(ms, keys);
          FineObject(to.members, keys);
          SortKeepsMembers(ms, keys, caseSensitive);
          SortKeepsMembers(to.members, keys, caseSensitive);
          SortIsSorted(ms, caseSensitive);
          SortIsSorted(to.members, caseSensitive);
          MembersReach(map[], Sort(ms, caseSensitive), Sort(to.members, caseSensitive), keys, caseSensitive, from);
          assert map[] + NormMembers(ms) == NormMembers(ms);
          assert map[] + NormMembers(to.members) == NormMembers(to.members);
        case _ =>
      }
    }
  }
}
