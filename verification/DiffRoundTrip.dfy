/** Generating patches and applying them: for which member names the target is always reached. */
module DiffRoundTrip {
  import opened Bytes
  import opened Json
  import opened JsonPointer
  import opened PointerDecode
  import opened PointerText
  import opened KeyedSort
  import opened JsonNormal
  import opened JsonCompare
  import opened JsonPatch
  import opened PatchReference
  import opened PatchDiff

  /** The generated patches apply without error to a copy of `from`, and leave `to` up to member order. */
  predicate RoundTrips(from: Value, to: Value, caseSensitive: bool) {
    var r := ApplyAll(from, Documents([], Edits(from, to, caseSensitive)), caseSensitive);
    r.status == 0 && Norm(r.document) == Norm(to)
  }

  // ---------------------------------------------------------------------------------------------
  // The names in generated patches are those of the two documents
  // ---------------------------------------------------------------------------------------------

  ghost predicate AllSafe(edits: seq<Edit>, keys: iset<Text>) {
    forall i :: 0 <= i < |edits| ==> SafeEdit(edits[i], keys)
  }

  lemma BelowIsSafe(t: Text, edits: seq<Edit>, keys: iset<Text>)
    requires AllSafe(edits, keys) && t in keys
    ensures AllSafe(BelowToken(t, edits), keys)
  {
    hide Fine;
    forall i | 0 <= i < |edits| ensures SafeEdit(BelowToken(t, edits)[i], keys) {
      assert SafeEdit(edits[i], keys);
    }
  }

  lemma {:induction false} RemovalsAreSafe(t: Text, n: nat, keys: iset<Text>)
    requires t in keys
    ensures AllSafe(Removals(t, n), keys)
  {
    hide Fine;
    if n > 0 {
      RemovalsAreSafe(t, n - 1, keys);
      assert SafeEdit(Edit([t], Remove), keys);
    }
  }

  lemma {:induction false} AdditionsAreSafe(items: seq<Value>, keys: iset<Text>)
    requires "-" in keys && forall i :: 0 <= i < |items| ==> Fine(items[i], keys)
    ensures AllSafe(Additions(items), keys)
  {
    hide Fine;
    if items != [] {
      AdditionsAreSafe(items[1..], keys);
      assert SafeEdit(Edit(["-"], Add(items[0])), keys);
    }
  }

  lemma {:induction false} EditsAreSafe(from: Value, to: Value, keys: iset<Text>, caseSensitive: bool)
    requires Fine(from, keys) && Fine(to, keys) && Safe(keys)
    ensures AllSafe(Edits(from, to, caseSensitive), keys)
    decreases from, 1, 0
  {
    hide Sort, Safe, AllSafe;
    if !SameType(from, to) || (from.Number? && from.n != to.n) || (from.Str? && from.s != to.s) {
      SingleIsSafe(to, keys);
    } else {
      match from {
        case Array(items) =>
          FineArray(items, keys);
          FineArray(to.items, keys);
          ItemEditsAreSafe(items, to.items, 0, keys, caseSensitive);
        case Object(ms) =>
          SortedInside(ms, caseSensitive);
          FineObject(ms, keys);
          FineObject(to.members, keys);
          SortKeepsMembers(ms, keys, caseSensitive);
          SortKeepsMembers(to.members, keys, caseSensitive);
          MemberEditsAreSafe(Sort(ms, caseSensitive), Sort(to.members, caseSensitive), keys, caseSensitive, from);
        case _ =>
          NoneIsSafe(keys);
      }
    }
  }

  lemma SingleIsSafe(v: Value, keys: iset<Text>)
    requires Fine(v, keys)
    ensures AllSafe([Edit([], Replace(v))], keys)
  {}

  lemma NoneIsSafe(keys: iset<Text>)
    ensures AllSafe([], keys)
  {}

  lemma AppendIsSafe(a: seq<Edit>, b: seq<Edit>, keys: iset<Text>)
    requires AllSafe(a, keys) && AllSafe(b, keys)
    ensures AllSafe(a + b, keys)
  {
    hide SafeEdit;
  }

  lemma {:induction false} ItemEditsAreSafe(from: seq<Value>, to: seq<Value>, i: nat, keys: iset<Text>,
                                            caseSensitive: bool)
    requires i <= |from| && i <= |to| && Safe(keys)
    requires forall j :: 0 <= j < |from| ==> Fine(from[j], keys)
    requires forall j :: 0 <= j < |to| ==> Fine(to[j], keys)
    ensures AllSafe(EditsOfItems(from, to, i, caseSensitive), keys)
    decreases from, 0, |from| - i
  {
    DecimalIsIndex(i);
    hide Fine, Edits, Decimal, AllSafe, BelowToken, Removals, Additions;
    if i < |from| && i < |to| {
      EditsAreSafe(from[i], to[i], keys, caseSensitive);
      BelowIsSafe(Decimal(i), Edits(from[i], to[i], caseSensitive), keys);
      ItemEditsAreSafe(from, to, i + 1, keys, caseSensitive);
      AppendIsSafe(BelowToken(Decimal(i), Edits(from[i], to[i], caseSensitive)),
                   EditsOfItems(from, to, i + 1, caseSensitive), keys);
    } else {
      RemovalsAreSafe(Decimal(i), |from| - i, keys);
      AdditionsAreSafe(to[i..], keys);
      AppendIsSafe(Removals(Decimal(i), |from| - i), Additions(to[i..]), keys);
    }
  }

  lemma FineTail(ms: seq<Keyed<Value>>, keys: iset<Text>)
    requires ms != [] && FineMembers(ms, keys)
    ensures FineMembers(ms[1..], keys) && ms[0].key in keys && Fine(ms[0].value, keys)
  {}

  lemma {:induction false} MemberEditsAreSafe(from: seq<Keyed<Value>>, to: seq<Keyed<Value>>, keys: iset<Text>,
                                              caseSensitive: bool,
                                              v: Value)
    requires Inside(from, v) && FineMembers(from, keys) && FineMembers(to, keys) && Safe(keys)
    ensures AllSafe(EditsOfMembers(from, to, caseSensitive, v), keys)
    decreases v, 0, |from| + |to|
  {
    hide Fine, FineMembers, Edits, AllSafe, BelowToken, CompareStrings, Safe;
    if from == [] && to == [] {
      NoneIsSafe(keys);
      return;
    }
    if from != [] {
      FineTail(from, keys);
      assert from[0] in from;
    }
    if to != [] {
      FineTail(to, keys);
    }
    var diff := if from == [] then 1 else if to == [] then -1
                else CompareStrings(from[0].key, to[0].key, caseSensitive);
    if diff == 0 {
      EditsAreSafe(from[0].value, to[0].value, keys, caseSensitive);
      BelowIsSafe(from[0].key, Edits(from[0].value, to[0].value, caseSensitive), keys);
      MemberEditsAreSafe(from[1..], to[1..], keys, caseSensitive, v);
      AppendIsSafe(BelowToken(from[0].key, Edits(from[0].value, to[0].value, caseSensitive)),
                   EditsOfMembers(from[1..], to[1..], caseSensitive, v), keys);
    } else if diff < 0 {
      OneIsSafe(from[0].key, Remove, keys);
      MemberEditsAreSafe(from[1..], to, keys, caseSensitive, v);
      AppendIsSafe([Edit([from[0].key], Remove)], EditsOfMembers(from[1..], to, caseSensitive, v), keys);
    } else {
      OneIsSafe(to[0].key, Add(to[0].value), keys);
      MemberEditsAreSafe(from, to[1..], keys, caseSensitive, v);
      AppendIsSafe([Edit([to[0].key], Add(to[0].value))], EditsOfMembers(from, to[1..], caseSensitive, v), keys);
    }
  }

  lemma OneIsSafe(t: Text, change: Change, keys: iset<Text>)
    requires t in keys && (!change.Remove? ==> Fine(change.value, keys))
    ensures AllSafe([Edit([t], change)], keys)
  {}

  /** For documents over safe names, applying the generated patches to a copy of `from` succeeds and gives `to`. */
  lemma DiffThenPatch(from: Value, to: Value, keys: iset<Text>, caseSensitive: bool)
    requires Fine(from, keys) && Fine(to, keys) && Safe(keys)
    ensures RoundTrips(from, to, caseSensitive)
  {
    SafeSeparates(keys, caseSensitive);
    EditsReach(from, to, keys, caseSensitive);
    EditsAreSafe(from, to, keys, caseSensitive);
    hide Norm, Edits, ApplyAll, Documents, SafeEdit, Safe, Fine, ChangedAll;
    ApplyAllRefines(from, Edits(from, to, caseSensitive), keys, caseSensitive);
  }

  // ---------------------------------------------------------------------------------------------
  // Exactly which names
  // ---------------------------------------------------------------------------------------------

  /** Member names that differ in more than case, and that escaping and decoding gives back. */
  ghost predicate Patchable(keys: iset<Text>) {
    Separates(keys, false) && forall k :: k in keys ==> Recoverable(k)
  }

  ghost function WithArrayTokens(keys: iset<Text>): iset<Text> {
    iset t | t in keys || IsIndex(t) || t == "-"
  }

  lemma {:induction false} FineInMore(v: Value, keys: iset<Text>, more: iset<Text>)
    requires Fine(v, keys) && keys <= more
    ensures Fine(v, more)
  {
    match v {
      case Array(items) =>
        forall i | 0 <= i < |items| ensures Fine(items[i], more) {
          FineInMore(items[i], keys, more);
        }
      case Object(ms) =>
        forall i | 0 <= i < |ms| ensures Fine(ms[i].value, more) {
          FineInMore(ms[i].value, keys, more);
        }
      case _ =>
    }
  }

  /** An array token has no letters, so no other name matches it. */
  lemma ArrayTokenStandsAlone(x: Text, t: Text)
    requires (IsIndex(t) || t == "-") && SameKey(x, t, false)
    ensures x == t
  {
    assert |LowerText(x)| == |LowerText(t)|;
    forall i | 0 <= i < |x| ensures x[i] == t[i] {
      assert LowerText(x)[i] == LowerText(t)[i];
    }
  }

  lemma PatchableIsSafe(keys: iset<Text>)
    requires Patchable(keys) && forall k :: k in keys ==> NulFree(k)
    ensures Safe(WithArrayTokens(keys))
  {
    var all := WithArrayTokens(keys);
    forall x, y | x in all && y in all && SameKey(x, y, false) ensures x == y {
      if IsIndex(x) || x == "-" {
        ArrayTokenStandsAlone(y, x);
      } else if IsIndex(y) || y == "-" {
        ArrayTokenStandsAlone(x, y);
      }
    }
    forall k | k in all ensures NulFree(k) && Recoverable(k) {
      if k !in keys {
        PlainIsRecoverable(k);
      }
    }
  }

  /** A document with one member, patched to one with none or the other way round, shows how its name fares. */
  lemma LostName(x: Text, caseSensitive: bool)
    requires NulFree(x) && !Recoverable(x)
    ensures !RoundTrips(Object([]), Object([Keyed(x, Null)]), caseSensitive)
  {
    DecodeUndoesEscape(x);
    var from, to := Object([]), Object([Keyed(x, Null)]);
    var edits := [Edit([x], Add(Null))];
    SingleEdits(from, to, caseSensitive, edits);
    var y := DecodeInPlace(Escape(x));
    hide Escape, DecodeInPlace, Recoverable;
    SinglePatch(from, x, Add(Null), caseSensitive);
    SplitSingle(x);
    AddToEmpty(y, Null, caseSensitive);
    assert Locate(from, [], caseSensitive) == Some([]);
    assert ApplyAll(from, Documents([], edits), caseSensitive).document == Object([Keyed(y, Null)]);
    OneMember(y, Null);
    OneMember(x, Null);
    assert x in NormMembers([Keyed(x, Null)]);
    assert x !in NormMembers([Keyed(y, Null)]);
  }

  lemma AddToEmpty(y: Text, v: Value, caseSensitive: bool)
    ensures AddChild(Object([]), y, v, caseSensitive) == Applied(0, Object([Keyed(y, v)]))
  {
    assert [] + [Keyed(y, v)] == [Keyed(y, v)];
  }

  lemma OneMember(k: Text, v: Value)
    ensures NormMembers([Keyed(k, v)]) == map[k := Norm(v)]
  {
    assert [Keyed(k, v)][1..] == [];
  }

  lemma SingleEdits(from: Value, to: Value, caseSensitive: bool, edits: seq<Edit>)
    requires from == Object([]) && to.Object? && |to.members| == 1
    requires edits == [Edit([to.members[0].key], Add(to.members[0].value))]
    ensures Edits(from, to, caseSensitive) == edits
  {
    SortedInside([], caseSensitive);
    assert to.members[1..] == [];
    assert EditsOfMembers([], to.members[1..], caseSensitive, from) == [];
    assert EditsOfMembers([], to.members, caseSensitive, from) == edits;
  }

  lemma SinglePatch(doc: Value, t: Text, change: Change, caseSensitive: bool)
    ensures ApplyAll(doc, Documents([], [Edit([t], change)]), caseSensitive)
         == ApplyPatch(doc, PatchOf(Encode([t]), change), caseSensitive)
    ensures Encode([t]) != []
    ensures change.Add? ==>
              (ApplyPatch(doc, PatchOf(Encode([t]), change), caseSensitive)
               == AddPath(doc, Encode([t]), change.value, caseSensitive))
    ensures change.Remove? && DetachPath(doc, Encode([t]), caseSensitive).Some? ==>
              (ApplyPatch(doc, PatchOf(Encode([t]), change), caseSensitive)
               == Applied(0, DetachPath(doc, Encode([t]), caseSensitive).value.document))
  {
    hide ApplyPatch, PatchOf, Escape, Documents;
    DocumentsSingle([], t, change);
    assert [] + "/" + Escape(t) == Encode([t]) by {
      assert [t][1..] == [];
      assert "/" + Escape(t) + [] == "/" + Escape(t);
    }
    assert Encode([t]) != [];
    PatchFields(Encode([t]), change, caseSensitive);
    SingleApplied(doc, PatchOf(Encode([t]), change), caseSensitive);
    ApplyUnfolds(doc, Encode([t]), change, caseSensitive);
  }

  lemma ApplyUnfolds(doc: Value, path: Text, change: Change, caseSensitive: bool)
    requires path != []
    ensures change.Add? ==>
              ApplyPatch(doc, PatchOf(path, change), caseSensitive) == AddPath(doc, path, change.value, caseSensitive)
    ensures change.Remove? && DetachPath(doc, path, caseSensitive).Some? ==>
              (ApplyPatch(doc, PatchOf(path, change), caseSensitive)
               == Applied(0, DetachPath(doc, path, caseSensitive).value.document))
  {
    hide PatchOf, DecodeOperation, GetMember, DetachPath, AddPath;
    PatchFields(path, change, caseSensitive);
  }

  lemma SingleApplied(doc: Value, patch: Value, caseSensitive: bool)
    ensures ApplyAll(doc, [patch], caseSensitive) == ApplyPatch(doc, patch, caseSensitive)
  {
    hide ApplyPatch;
    assert [patch][1..] == [];
  }

  lemma SortPair<T>(a: Keyed<T>, b: Keyed<T>, caseSensitive: bool)
    ensures Sort([a], caseSensitive) == [a]
    ensures Sort([a, b], caseSensitive) == if Compare(a, b, caseSensitive) < 0 then [a, b] else [b, a]
  {
    var s := [a, b];
    assert s[..1] == [a] && s[1..] == [b] && [a][1..] == [] && [b][1..] == [];
    if Compare(a, b, caseSensitive) < 0 {
      assert StrictlySorted(s, caseSensitive);
    } else {
      hide Compare;
      assert Compare(s[1 - 1], s[1], caseSensitive) >= 0;
      assert !StrictlySorted(s, caseSensitive);
      assert Sort(s[..1], caseSensitive) == [a] && Sort(s[1..], caseSensitive) == [b];
      assert Merge([a], [], caseSensitive) == [a];
      assert Sort(s, caseSensitive) == Merge([a], [b], caseSensitive) == [b] + [a];
    }
  }

  /** Two names that differ in case only, matched without regard to case: the difference is not noticed. */
  lemma CaseUnnoticed(x: Text, y: Text)
    requires x != y && SameKey(x, y, false)
    ensures !RoundTrips(Object([Keyed(x, Null)]), Object([Keyed(y, Null)]), false)
  {
    var a, b := Keyed(x, Null), Keyed(y, Null);
    SortPair(a, a, false);
    SortPair(b, b, false);
    SortedInside([a], false);
    StrCmpZero(Fold(x, false), Fold(y, false));
    WalkEnds(false, Object([a]));
    UnfoldPair([a], [b], false, Object([a]));
    assert BelowToken(x, []) == [];
    assert Edits(Object([a]), Object([b]), false) == [];
    OneMember(x, Null);
    OneMember(y, Null);
    assert x in map[x := Norm(Null)] && x !in map[y := Norm(Null)];
  }

  lemma UnfoldPair(from: seq<Keyed<Value>>, to: seq<Keyed<Value>>, caseSensitive: bool, v: Value)
    requires |from| == 1 && |to| == 1 && Inside(from, v) && CompareStrings(from[0].key, to[0].key, caseSensitive) == 0
    ensures EditsOfMembers(from, to, caseSensitive, v)
         == BelowToken(from[0].key, Edits(from[0].value, to[0].value, caseSensitive))
  {
    hide Edits;
    assert from[1..] == [] && to[1..] == [] && EditsOfMembers([], [], caseSensitive, v) == [];
  }

  /** The same two names, matched case-sensitively: removing one of them takes the other, because the helper that
      removes ignores case. */
  lemma WrongMemberRemoved(x: Text, y: Text)
    requires x != y && SameKey(x, y, false) && NulFree(y) && Recoverable(y)
    ensures !RoundTrips(Object([Keyed(x, Null), Keyed(y, Null)]), Object([Keyed(x, Null)]), true)
  {
    var a, b := Keyed(x, Null), Keyed(y, Null);
    var from := Object([a, b]);
    var edits := [Edit([y], Remove)];
    OnlyRemoval(a, b, from);
    hide Edits;
    DecodeUndoesEscape(y);
    hide Escape, DecodeInPlace, Recoverable;
    SplitSingle(y);
    assert Locate(from, [], true) == Some([]);
    assert SameKey(y, x, false);
    assert DetachChild(from, y) == Some(Detached(Null, Object(RemoveAt([a, b], 0))));
    assert RemoveAt([a, b], 0) == [b];
    assert DetachPath(from, Encode([y]), true) == Some(Detached(Null, Object([b])));
    SinglePatch(from, y, Remove, true);
    assert ApplyAll(from, Documents([], edits), true) == Applied(0, Object([b]));
    OneMember(x, Null);
    OneMember(y, Null);
    assert x in map[x := Norm(Null)] && x !in map[y := Norm(Null)];
  }

  lemma OnlyRemoval(a: Keyed<Value>, b: Keyed<Value>, from: Value)
    requires a.key != b.key && a.value == b.value == Null && from == Object([a, b])
    ensures Edits(from, Object([a]), true) == [Edit([b.key], Remove)]
  {
    SortPair(a, b, true);
    SortPair(a, a, true);
    SortedInside([a, b], true);
    StrCmpZero(a.key, b.key);
    StrCmpZero(a.key, a.key);
    StrCmpAntisymmetric(a.key, b.key);
    assert BelowToken(a.key, []) == [] && Edits(Null, Null, true) == [];
    assert [a, b][1..] == [b] && [b, a][1..] == [a] && [a][1..] == [] && [b][1..] == [];
    assert EditsOfMembers([], [], true, from) == [];
    assert EditsOfMembers([b], [], true, from) == [Edit([b.key], Remove)];
    assert EditsOfMembers([a], [a], true, from) == [];
  }

  lemma FlatObjectIsFine(ms: seq<Keyed<Value>>, keys: iset<Text>)
    requires DistinctKeys(ms) && forall i :: 0 <= i < |ms| ==> ms[i].key in keys && ms[i].value == Null
    ensures Fine(Object(ms), keys)
  {
    assert Fine(Null, keys);
    FineObject(ms, keys);
  }

  /** Every pair of documents over a set of names makes the round trip exactly if the names are patchable. */
  lemma PatchableExactly(keys: iset<Text>, caseSensitive: bool)
    requires forall k :: k in keys ==> NulFree(k)
    ensures (forall from, to :: Fine(from, keys) && Fine(to, keys) ==> RoundTrips(from, to, caseSensitive))
       <==> Patchable(keys)
  {
    hide RoundTrips, Recoverable;
    if Patchable(keys) {
      PatchableIsSafe(keys);
      forall from, to | Fine(from, keys) && Fine(to, keys) ensures RoundTrips(from, to, caseSensitive) {
        FineInMore(from, keys, WithArrayTokens(keys));
        FineInMore(to, keys, WithArrayTokens(keys));
        DiffThenPatch(from, to, WithArrayTokens(keys), caseSensitive);
      }
    } else if x :| x in keys && !Recoverable(x) {
      LostName(x, caseSensitive);
      FineObject([], keys);
      FlatObjectIsFine([Keyed(x, Null)], keys);
    } else {
      var x, y :| x in keys && y in keys && SameKey(x, y, false) && x != y;
      var a, b := Keyed(x, Null), Keyed(y, Null);
      FlatObjectIsFine([a], keys);
      FlatObjectIsFine([b], keys);
      FlatObjectIsFine([a, b], keys);
      if caseSensitive {
        WrongMemberRemoved(x, y);
      } else {
        CaseUnnoticed(x, y);
      }
    }
  }

  /** Names without capital letters, tildes and slashes are patchable. */
  lemma PlainNamesArePatchable(keys: iset<Text>)
    requires forall k, c :: k in keys && c in k ==> !('A' <= c <= 'Z') && c != '~' && c != '/'
    ensures Patchable(keys)
  {
    hide Recoverable;
    forall k | k in keys ensures Recoverable(k) {
      PlainIsRecoverable(k);
    }
    forall x, y | x in keys && y in keys && SameKey(x, y, false) ensures x == y {
      NoCapitals(x);
      NoCapitals(y);
    }
  }

  lemma NoCapitals(x: Text)
    requires forall c :: c in x ==> !('A' <= c <= 'Z')
    ensures LowerText(x) == x
  {
    forall i | 0 <= i < |x| ensures LowerText(x)[i] == x[i] {
      assert x[i] in x;
    }
  }

  // ---------------------------------------------------------------------------------------------
  // No patches exactly between equal documents
  // ---------------------------------------------------------------------------------------------

  lemma {:induction false} NoItemEdits(from: seq<Value>, to: seq<Value>, i: nat, keys: iset<Text>, caseSensitive: bool)
    requires |from| == |to| && i <= |from| && Separates(keys, caseSensitive) && NormItems(from) == NormItems(to)
    requires forall j :: 0 <= j < |from| ==> Fine(from[j], keys)
    requires forall j :: 0 <= j < |to| ==> Fine(to[j], keys)
    ensures EditsOfItems(from, to, i, caseSensitive) == []
    decreases from, 0, |from| - i
  {
    hide Norm, Fine, Edits, Decimal;
    if i < |from| {
      assert NormItems(from)[i] == NormItems(to)[i];
      NoEdits(from[i], to[i], keys, caseSensitive);
      NoItemEdits(from, to, i + 1, keys, caseSensitive);
      assert BelowToken(Decimal(i), []) == [];
    }
  }

  lemma {:induction false} NoMemberEdits(from: seq<Keyed<Value>>, to: seq<Keyed<Value>>, keys: iset<Text>,
                                         caseSensitive: bool,
                                         v: Value)
    requires Inside(from, v) && Separates(keys, caseSensitive) && NormMembers(from) == NormMembers(to)
    requires FineMembers(from, keys) && FineMembers(to, keys) && Sorted(from, caseSensitive)
    requires Sorted(to, caseSensitive)
    ensures EditsOfMembers(from, to, caseSensitive, v) == []
    decreases v, 0, |from| + |to|
  {
    hide Norm, Fine, Edits, CompareStrings, NormMembers, FineMembers, Sorted;
    if from != [] || to != [] {
      var diff := WalkStep(from, to, keys, caseSensitive);
      if diff == 0 {
        assert from[0] in from;
        NoEdits(from[0].value, to[0].value, keys, caseSensitive);
        NoMemberEdits(from[1..], to[1..], keys, caseSensitive, v);
        assert BelowToken(from[0].key, []) == [];
      }
    }
  }

  lemma {:induction false} NoEdits(from: Value, to: Value, keys: iset<Text>, caseSensitive: bool)
    requires Fine(from, keys) && Fine(to, keys) && Separates(keys, caseSensitive) && Norm(from) == Norm(to)
    ensures Edits(from, to, caseSensitive) == []
    decreases from, 1, 0
  {
    hide Sort, NormMembers, FineMembers, Separates, Sorted;
    match from {
      case Array(items) =>
        FineArray(items, keys);
        FineArray(to.items, keys);
        NoItemEdits(items, to.items, 0, keys, caseSensitive);
      case Object(ms) =>
        SortedInside(ms, caseSensitive);
        FineObject(ms, keys);
        FineObject(to.members, keys);
        SortKeepsMembers(ms, keys, caseSensitive);
        SortKeepsMembers(to.members, keys, caseSensitive);
        SortIsSorted(ms, caseSensitive);
        SortIsSorted(to.members, caseSensitive);
        NoMemberEdits(Sort(ms, caseSensitive), Sort(to.members, caseSensitive), keys, caseSensitive, from);
      case _ =>
    }
  }

  /** There is nothing to patch exactly between documents that are equal up to member order. */
  lemma NoPatchesIffEqual(from: Value, to: Value, keys: iset<Text>, caseSensitive: bool)
    requires Fine(from, keys) && Fine(to, keys) && Separates(keys, caseSensitive)
    ensures Documents([], Edits(from, to, caseSensitive)) == [] <==> Norm(from) == Norm(to)
  {
    if Norm(from) == Norm(to) {
      NoEdits(from, to, keys, caseSensitive);
    }
    EditsReach(from, to, keys, caseSensitive);
    hide Edits, Norm, PatchOf;
    assert |Documents([], Edits(from, to, caseSensitive))| == |Edits(from, to, caseSensitive)|;
  }
}
