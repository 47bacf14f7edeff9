/** `compare_json` of cJSON_Utils.c decides equality up to member order. */
module JsonCompare {
  import opened Bytes
  import opened Json
  import opened JsonPointer
  import opened KeyedSort
  import opened JsonNormal

  /** The types of two items agree; true and false are different types. */
  predicate SameType(a: Value, b: Value) {
    match a
    case Invalid => b.Invalid?
    case Null => b.Null?
    case Bool(x) => b.Bool? && x == b.b
    case Number(_) => b.Number?
    case Str(_) => b.Str?
    case Array(_) => b.Array?
    case Object(_) => b.Object?
  }

  /** Members that all lie inside `v`. */
  ghost predicate Inside(ms: seq<Keyed<Value>>, v: Value) {
    forall m :: m in ms ==> m.value < v
  }

  lemma SortedInside(ms: seq<Keyed<Value>>, caseSensitive: bool)
    ensures Inside(Sort(ms, caseSensitive), Object(ms))
  {
    SortPermutes(ms, caseSensitive);
    forall m | m in Sort(ms, caseSensitive) ensures m.value < Object(ms) {
      assert m in multiset(Sort(ms, caseSensitive));
      assert m in ms;
      var i :| 0 <= i < |ms| && ms[i] == m;
      assert ms[i].value < Object(ms);
    }
  }

  function Same(a: Value, b: Value, caseSensitive: bool): bool
    decreases a, 1, 0
  {
    SameType(a, b) &&
    match a
    case Number(n) => n == b.n
    case Str(s) => s == b.s
    case Array(items) => SameItems(items, b.items, caseSensitive)
    case Object(ms) =>
      SortedInside(ms, caseSensitive);
      SameMembers(Sort(ms, caseSensitive), Sort(b.members, caseSensitive), caseSensitive, a)
    case _ => true
  }

  function SameItems(a: seq<Value>, b: seq<Value>, caseSensitive: bool): bool
    decreases a
  {
    if a == [] || b == [] then a == [] && b == [] else
    Same(a[0], b[0], caseSensitive) && SameItems(a[1..], b[1..], caseSensitive)
  }

  function SameMembers(a: seq<Keyed<Value>>, b: seq<Keyed<Value>>, caseSensitive: bool, ghost v: Value): bool
    requires Inside(a, v)
    decreases v, 0, |a|
  {
    if a == [] || b == [] then a == [] && b == [] else
    && CompareStrings(a[0].key, b[0].key, caseSensitive) == 0
    && Same(a[0].value, b[0].value, caseSensitive)
    && SameMembers(a[1..], b[1..], caseSensitive, v)
  }

  /** Matching as chosen tells any two of these keys apart. Case-sensitive matching always does; matching that ignores
      case does if no two keys differ in case only. */
  ghost predicate Separates(keys: iset<Text>, caseSensitive: bool) {
    forall x, y :: x in keys && y in keys && SameKey(x, y, caseSensitive) ==> x == y
  }

  lemma CaseSensitiveSeparates(keys: iset<Text>)
    ensures Separates(keys, true)
  {}

  lemma CompareIsZero(x: Text, y: Text, keys: iset<Text>, caseSensitive: bool)
    requires Separates(keys, caseSensitive) && x in keys && y in keys
    ensures CompareStrings(x, y, caseSensitive) == 0 <==> x == y
  {
    StrCmpZero(Fold(x, caseSensitive), Fold(y, caseSensitive));
  }

  /** The first key of a sorted list can be found in another only if that one does not start later. */
  lemma HeadFound(a: seq<Keyed<Value>>, b: seq<Keyed<Value>>, caseSensitive: bool)
    requires a != [] && b != [] && Sorted(b, caseSensitive) && HasKey(b, a[0].key)
    ensures Compare(a[0], b[0], caseSensitive) >= 0
  {
    var j :| 0 <= j < |b| && b[j].key == a[0].key;
    StrCmpZero(Fold(a[0].key, caseSensitive), Fold(b[j].key, caseSensitive));
    StrCmpAntisymmetric(Fold(b[0].key, caseSensitive), Fold(a[0].key, caseSensitive));
  }

  lemma {:induction false} SameMembersIsEquality(a: seq<Keyed<Value>>, b: seq<Keyed<Value>>, keys: iset<Text>,
                                                 caseSensitive: bool, v: Value)
    requires Inside(a, v) && Separates(keys, caseSensitive)
    requires FineMembers(a, keys) && FineMembers(b, keys) && Sorted(a, caseSensitive) && Sorted(b, caseSensitive)
    ensures SameMembers(a, b, caseSensitive, v) <==> NormMembers(a) == NormMembers(b)
    decreases v, 0, |a|
  {
    hide Norm, Same, Fine, CompareStrings;
    NormMembersKeys(a);
    NormMembersKeys(b);
    if a == [] || b == [] {
      if a != [] {
        assert a[0].key in NormMembers(a);
      }
      if b != [] {
        assert b[0].key in NormMembers(b);
      }
    } else {
      CompareIsZero(a[0].key, b[0].key, keys, caseSensitive);
      SameIsEquality(a[0].value, b[0].value, keys, caseSensitive);
      TailFine(a, keys, caseSensitive);
      TailFine(b, keys, caseSensitive);
      SameMembersIsEquality(a[1..], b[1..], keys, caseSensitive, v);
      if NormMembers(a) == NormMembers(b) {
        assert a[0].key in NormMembers(b) && b[0].key in NormMembers(a);
        HeadFound(a, b, caseSensitive);
        HeadFound(b, a, caseSensitive);
        CompareConnected(a[0], b[0], caseSensitive);
        CompareConnected(b[0], a[0], caseSensitive);
        assert a[0].key == b[0].key;
      }
    }
  }

  lemma TailFine(a: seq<Keyed<Value>>, keys: iset<Text>, caseSensitive: bool)
    requires a != [] && FineMembers(a, keys) && Sorted(a, caseSensitive)
    ensures FineMembers(a[1..], keys) && Sorted(a[1..], caseSensitive)
    ensures NormMembers(a[1..]) == NormMembers(a) - {a[0].key}
    ensures a[0].key in keys && Fine(a[0].value, keys)
  {
    hide *;
    SortedHead(a, caseSensitive);
    TailOfFine(a, keys);
    NormMembersRemove(a, 0);
    assert a[..0] + a[1..] == a[1..];
  }

  lemma TailOfFine(a: seq<Keyed<Value>>, keys: iset<Text>)
    requires a != [] && FineMembers(a, keys)
    ensures DistinctKeys(a) && FineMembers(a[1..], keys) && a[0].key in keys && Fine(a[0].value, keys)
  {
    hide Fine;
  }

  lemma {:induction false} SameItemsIsEquality(a: seq<Value>, b: seq<Value>, keys: iset<Text>, caseSensitive: bool)
    requires Separates(keys, caseSensitive)
    requires (forall i :: 0 <= i < |a| ==> Fine(a[i], keys)) && (forall i :: 0 <= i < |b| ==> Fine(b[i], keys))
    ensures SameItems(a, b, caseSensitive) <==> NormItems(a) == NormItems(b)
    decreases a
  {
    if a != [] && b != [] {
      SameIsEquality(a[0], b[0], keys, caseSensitive);
      SameItemsIsEquality(a[1..], b[1..], keys, caseSensitive);
      assert NormItems(a) == [Norm(a[0])] + NormItems(a[1..]) && NormItems(b) == [Norm(b[0])] + NormItems(b[1..]);
    }
  }

  /** The comparison decides equality up to member order, for all documents whose keys the matching tells apart. */
  lemma {:induction false} SameIsEquality(a: Value, b: Value, keys: iset<Text>, caseSensitive: bool)
    requires Fine(a, keys) && Fine(b, keys) && Separates(keys, caseSensitive)
    ensures Same(a, b, caseSensitive) <==> Norm(a) == Norm(b)
    decreases a, 1, 0
  {
    if SameType(a, b) {
      match a {
        case Array(items) =>
          FineArray(items, keys);
          FineArray(b.items, keys);
          SameItemsIsEquality(items, b.items, keys, caseSensitive);
        case Object(ms) =>
          SortedInside(ms, caseSensitive);
          FineObject(ms, keys);
          FineObject(b.members, keys);
          SortKeepsMembers(ms, keys, caseSensitive);
          SortKeepsMembers(b.members, keys, caseSensitive);
          SortIsSorted(ms, caseSensitive);
          SortIsSorted(b.members, caseSensitive);
          SameMembersIsEquality(Sort(ms, caseSensitive), Sort(b.members, caseSensitive), keys, caseSensitive, a);
        case _ =>
      }
    }
  }
}
