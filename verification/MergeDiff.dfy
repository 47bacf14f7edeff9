/** `generate_merge_patch` of cJSON_Utils.c: when merging the generated patch gives the target. */
module MergeDiff {
  import opened Bytes
  import opened Json
  import opened JsonPointer
  import opened KeyedSort
  import opened JsonNormal
  import opened JsonCompare
  import opened LinkedTree
  import opened JsonPatch
  import opened DiffRoundTrip
  import opened PatchDiff
  import opened MergePatch

  /** Without a difference between two objects there is no patch. Children are compared as asked for, but their patches
      are always generated by the variant that ignores case. */
  function Generated(from: Value, to: Value, caseSensitive: bool): Option<Value>
    decreases from, 1, 0
  {
    if !to.Object? || !from.Object? then Some(to) else
    SortedInside(from.members, caseSensitive);
    var ps := GeneratedMembers(Sort(from.members, caseSensitive), Sort(to.members, caseSensitive), caseSensitive, from);
    if ps == [] then None else Some(Object(ps))
  }

  /** The walk along two sorted member lists, which compares the names with `strcmp` whatever they are sorted by. */
  function GeneratedMembers(from: seq<Keyed<Value>>, to: seq<Keyed<Value>>, caseSensitive: bool,
                            ghost v: Value): seq<Keyed<Value>>
    requires Inside(from, v)
    decreases v, 0, |from| + |to|
  {
    if from == [] && to == [] then [] else
    var diff := if to == [] then -1 else if from == [] then 1 else StrCmp(from[0].key, to[0].key);
    if diff < 0 then [Keyed(from[0].key, Null)] + GeneratedMembers(from[1..], to, caseSensitive, v)
    else if diff > 0 then [to[0]] + GeneratedMembers(from, to[1..], caseSensitive, v)
    else GeneratedMember(from[0], to[0], caseSensitive, v) + GeneratedMembers(from[1..], to[1..], caseSensitive, v)
  }

  function GeneratedMember(from: Keyed<Value>, to: Keyed<Value>, caseSensitive: bool, ghost v: Value): seq<Keyed<Value>>
    requires from.value < v
    decreases v, 0, 0
  {
    if Same(from.value, to.value, caseSensitive) then [] else
    match Generated(from.value, to.value, false)
    case None => []
    case Some(p) => [Keyed(to.key, p)]
  }

  method GenerateMergePatch(from: Value, to: Value, caseSensitive: bool) returns (r: Option<Value>)
    ensures r == Generated(from, to, caseSensitive)
    decreases from
  {
    hide Sort, GeneratedMembers, GeneratedMember;
    if !to.Object? || !from.Object? {
      return Some(to);
    }
    SortedInside(from.members, caseSensitive);
    var a, b := Sort(from.members, caseSensitive), Sort(to.members, caseSensitive);
    var patch: seq<Keyed<Value>> := [];
    var i: nat, j: nat := 0, 0;
    while i < |a| || j < |b|
      invariant i <= |a| && j <= |b|
      invariant patch + GeneratedMembers(a[i..], b[j..], caseSensitive, from)
           == GeneratedMembers(a, b, caseSensitive, from)
      decreases |a| - i + |b| - j
    {
      ghost var before := patch;
      var diff := if j == |b| then -1 else if i == |a| then 1 else StrCmp(a[i].key, b[j].key);
      UnfoldGenerated(a, i, b, j, caseSensitive, from, diff);
      if diff < 0 {
        Joined(patch, [Keyed(a[i].key, Null)], GeneratedMembers(a[i + 1..], b[j..], caseSensitive, from));
        patch := patch + [Keyed(a[i].key, Null)];
        i := i + 1;
      } else if diff > 0 {
        Joined(patch, [b[j]], GeneratedMembers(a[i..], b[j + 1..], caseSensitive, from));
        patch := patch + [b[j]];
        j := j + 1;
      } else {
        Joined(patch, GeneratedMember(a[i], b[j], caseSensitive, from),
               GeneratedMembers(a[i + 1..], b[j + 1..], caseSensitive, from));
        var compared := CompareJson(Fresh(a[i].value), Fresh(b[j].value), caseSensitive);
        ComparedIsSame(Fresh(a[i].value), Fresh(b[j].value), caseSensitive);
        if !compared.same {
          var child := GenerateMergePatch(a[i].value, b[j].value, false);
          if child.Some? {
            patch := patch + [Keyed(b[j].key, child.value)];
          }
        }
        UnfoldMember(before, a[i], b[j], caseSensitive, from);
        assert patch == before + GeneratedMember(a[i], b[j], caseSensitive, from);
        i, j := i + 1, j + 1;
      }
    }
    assert a[i..] == [] && b[j..] == [];
    GeneratedEnds(caseSensitive, from);
    assert patch + [] == patch;
    r := if patch == [] then None else Some(Object(patch));
  }

  lemma Joined(a: seq<Keyed<Value>>, b: seq<Keyed<Value>>, c: seq<Keyed<Value>>)
    ensures a + (b + c) == (a + b) + c
  {}

  lemma GeneratedEnds(caseSensitive: bool, v: Value)
    ensures GeneratedMembers([], [], caseSensitive, v) == []
  {}

  lemma UnfoldMember(patch: seq<Keyed<Value>>, a: Keyed<Value>, b: Keyed<Value>, caseSensitive: bool, v: Value)
    requires a.value < v
    ensures patch + GeneratedMember(a, b, caseSensitive, v)
         == if !Same(a.value, b.value, caseSensitive) && Generated(a.value, b.value, false).Some?
            then patch + [Keyed(b.key, Generated(a.value, b.value, false).value)]
            else patch
  {
    hide Same, Generated;
  }

  lemma UnfoldGenerated(from: seq<Keyed<Value>>, i: nat, to: seq<Keyed<Value>>, j: nat, caseSensitive: bool, v: Value,
                        diff: int)
    requires Inside(from, v) && i <= |from| && j <= |to| && (i < |from| || j < |to|)
    requires diff == if j == |to| then -1 else if i == |from| then 1 else StrCmp(from[i].key, to[j].key)
    ensures i < |from| ==> from[i].value < v
    ensures GeneratedMembers(from[i..], to[j..], caseSensitive, v)
         == if diff < 0 then [Keyed(from[i].key, Null)] + GeneratedMembers(from[i + 1..], to[j..], caseSensitive, v)
            else if diff > 0 then [to[j]] + GeneratedMembers(from[i..], to[j + 1..], caseSensitive, v)
            else GeneratedMember(from[i], to[j], caseSensitive, v)
                 + GeneratedMembers(from[i + 1..], to[j + 1..], caseSensitive, v)
  {
    hide GeneratedMember, StrCmp;
    if i < |from| {
      assert from[i] in from && from[i..][0] == from[i] && from[i..][1..] == from[i + 1..];
    }
    if j < |to| {
      assert to[j..][0] == to[j] && to[j..][1..] == to[j + 1..];
    }
  }

  // ---------------------------------------------------------------------------------------------
  // What a merge patch for the difference has to say, on normal forms
  // ---------------------------------------------------------------------------------------------

  function MembersOf(a: Option<NValue>): map<Text, NValue> {
    match a case Some(NObject(m)) => m case _ => map[]
  }

  /** Members that are gone become null, new ones are as in `b`, those that differ become their difference. */
  function Difference(a: Option<NValue>, b: NValue): NValue
    decreases b, 1
  {
    if b.NObject? then NObject(DifferenceMap(MembersOf(a), b)) else b
  }

  function DifferenceMap(f: map<Text, NValue>, b: NValue): map<Text, NValue>
    requires b.NObject?
    decreases b, 0
  {
    var t := b.members;
    map k | k in f.Keys + t.Keys && !(k in f && k in t && f[k] == t[k]) ::
      if k !in t then NNull else Difference(if k in f then Some(f[k]) else None, t[k])
  }

  /** A merge patch cannot write a null member: it must have been there before, or the target has none. */
  predicate Reachable(a: Option<NValue>, b: NValue)
    decreases b
  {
    b.NObject? ==>
      var f, t := MembersOf(a), b.members;
      forall k :: k in t ==>
        (k in f && f[k] == t[k]) || (!t[k].NNull? && Reachable(if k in f then Some(f[k]) else None, t[k]))
  }

  /** Merging the difference gives the target exactly if no null member has to be written. */
  lemma {:induction false} DifferenceReaches(a: Option<NValue>, b: NValue)
    ensures MergeReference(a, Difference(a, b)) == b <==> Reachable(a, b)
    decreases b
  {
    if b.NObject? {
      var f, t := MembersOf(a), b.members;
      var d := DifferenceMap(f, b);
      var r := MergeMap(f, NObject(d));
      assert MergeReference(a, Difference(a, b)) == NObject(r);
      forall k | k in t && !(k in f && f[k] == t[k])
        ensures k in d && d[k] == Difference(if k in f then Some(f[k]) else None, t[k])
        ensures (k in r && r[k] == t[k]) <==> (!t[k].NNull? && Reachable(if k in f then Some(f[k]) else None, t[k]))
      {
        DifferenceReaches(if k in f then Some(f[k]) else None, t[k]);
      }
      hide Difference, MergeReference, Reachable;
      assert forall k :: k in r ==> k in t;
      assert forall k :: k in t && k in f && f[k] == t[k] ==> k in r && r[k] == t[k];
      ReachableUnfolds(a, b);
      if r == t {
        assert forall k :: k in t ==> k in r && r[k] == t[k];
      }
    }
  }

  lemma ReachableUnfolds(a: Option<NValue>, b: NValue)
    requires b.NObject?
    ensures var f, t := MembersOf(a), b.members;
            Reachable(a, b) <==>
              forall k :: k in t ==>
                (k in f && f[k] == t[k]) || (!t[k].NNull? && Reachable(if k in f then Some(f[k]) else None, t[k]))
  {}

  // ---------------------------------------------------------------------------------------------
  // The generated patch says just that
  // ---------------------------------------------------------------------------------------------

  /** Names that sort alike whether or not case counts. They then differ in more than case. */
  ghost predicate OrderedAlike(keys: iset<Text>) {
    forall x, y :: x in keys && y in keys ==> (StrCmp(x, y) < 0 <==> CompareStrings(x, y, false) < 0)
  }

  lemma OrderedAlikeSeparates(keys: iset<Text>, caseSensitive: bool)
    requires OrderedAlike(keys)
    ensures Separates(keys, caseSensitive)
  {
    forall x, y | x in keys && y in keys && SameKey(x, y, false) ensures x == y {
      StrCmpZero(Fold(x, false), Fold(y, false));
      StrCmpAntisymmetric(Fold(x, false), Fold(y, false));
      StrCmpAntisymmetric(x, y);
      StrCmpZero(x, y);
    }
  }

  lemma SortedAlike(ms: seq<Keyed<Value>>, keys: iset<Text>, caseSensitive: bool)
    requires OrderedAlike(keys) && FineMembers(ms, keys) && Sorted(ms, caseSensitive)
    ensures Sorted(ms, true)
  {
    hide Fine;
    forall i, j | 0 <= i < j < |ms| ensures Compare(ms[i], ms[j], true) <= 0 {
      assert Compare(ms[i], ms[j], caseSensitive) <= 0;
      StrCmpAntisymmetric(ms[i].key, ms[j].key);
      StrCmpAntisymmetric(Fold(ms[i].key, false), Fold(ms[j].key, false));
    }
  }

  lemma DifferenceOfAdded(f: map<Text, NValue>, t: map<Text, NValue>, k: Text)
    requires k in t && k !in f
    ensures k !in DifferenceMap(f, NObject(t - {k}))
    ensures DifferenceMap(f, NObject(t)) == DifferenceMap(f, NObject(t - {k}))[k := Difference(None, t[k])]
  {
    hide Difference;
  }

  lemma DifferenceOfGone(f: map<Text, NValue>, t: map<Text, NValue>, k: Text)
    requires k in f && k !in t
    ensures k !in DifferenceMap(f - {k}, NObject(t))
    ensures DifferenceMap(f, NObject(t)) == DifferenceMap(f - {k}, NObject(t))[k := NNull]
  {
    hide Difference;
  }

  lemma DifferenceOfShared(f: map<Text, NValue>, t: map<Text, NValue>, k: Text)
    requires k in f && k in t
    ensures var rest := DifferenceMap(f - {k}, NObject(t - {k}));
            && k !in rest
            && DifferenceMap(f, NObject(t)) == if f[k] == t[k] then rest else rest[k := Difference(Some(f[k]), t[k])]
  {
    hide Difference;
  }

  lemma {:induction false} DifferenceToNothing(b: NValue)
    ensures Difference(None, b) == b
    decreases b
  {
    if b.NObject? {
      forall k | k in b.members ensures Difference(None, b.members[k]) == b.members[k] {
        DifferenceToNothing(b.members[k]);
      }
      assert DifferenceMap(map[], b) == b.members;
    }
  }

  lemma ConsMember(m: Keyed<Value>, rest: seq<Keyed<Value>>, keys: iset<Text>)
    requires FineMembers(rest, keys) && m.key !in NormMembers(rest) && m.key in keys && Fine(m.value, keys)
    ensures FineMembers([m] + rest, keys) && NormMembers([m] + rest) == NormMembers(rest)[m.key := Norm(m.value)]
  {
    hide Fine, Norm;
    NormMembersKeys(rest);
    assert ([m] + rest)[1..] == rest;
    forall j | 1 <= j < |[m] + rest| ensures ([m] + rest)[j].key != m.key {
      assert rest[j - 1].key in NormMembers(rest) by {
        assert HasKey(rest, rest[j - 1].key);
      }
    }
  }

  lemma NullIsFine(keys: iset<Text>)
    ensures Fine(Null, keys) && Norm(Null) == NNull
  {}

  lemma {:induction false} GeneratedMembersSayDifference(from: seq<Keyed<Value>>, to: seq<Keyed<Value>>,
                                                         keys: iset<Text>,
                                                         caseSensitive: bool, v: Value)
    requires Inside(from, v) && OrderedAlike(keys)
    requires FineMembers(from, keys) && FineMembers(to, keys) && Sorted(from, true) && Sorted(to, true)
    ensures FineMembers(GeneratedMembers(from, to, caseSensitive, v), keys)
    ensures NormMembers(GeneratedMembers(from, to, caseSensitive, v))
         == DifferenceMap(NormMembers(from), NObject(NormMembers(to)))
    decreases v, 0, |from| + |to|
  {
    hide Fine, Norm, FineMembers, NormMembers, Sorted, StrCmp, Generated, Difference, DifferenceMap, OrderedAlike;
    hide Separates, GeneratedMember;
    OrderedAlikeSeparates(keys, true);
    if from == [] && to == [] {
      GeneratedNothing(keys, caseSensitive, v);
      return;
    }
    HeadsFine(from, keys);
    HeadsFine(to, keys);
    var f, t := NormMembers(from), NormMembers(to);
    var diff := WalkStep(from, to, keys, true);
    DiffIsStrCmp(from, to);
    if diff < 0 {
      GeneratedMembersSayDifference(from[1..], to, keys, caseSensitive, v);
      DifferenceOfGone(f, t, from[0].key);
      NullIsFine(keys);
      ConsMember(Keyed(from[0].key, Null), GeneratedMembers(from[1..], to, caseSensitive, v), keys);
    } else if diff > 0 {
      GeneratedMembersSayDifference(from, to[1..], keys, caseSensitive, v);
      DifferenceOfAdded(f, t, to[0].key);
      DifferenceToNothing(t[to[0].key]);
      ConsMember(to[0], GeneratedMembers(from, to[1..], caseSensitive, v), keys);
    } else {
      assert from[0] in from;
      var rest := GeneratedMembers(from[1..], to[1..], caseSensitive, v);
      GeneratedMembersSayDifference(from[1..], to[1..], keys, caseSensitive, v);
      DifferenceOfShared(f, t, to[0].key);
      GeneratedMemberSaysDifference(from[0], to[0], keys, caseSensitive, v);
      if f[to[0].key] == t[to[0].key] {
        assert [] + rest == rest;
      } else {
        var m := GeneratedMember(from[0], to[0], caseSensitive, v);
        assert m == [m[0]];
        ConsMember(m[0], rest, keys);
      }
    }
  }

  lemma GeneratedNothing(keys: iset<Text>, caseSensitive: bool, v: Value)
    ensures FineMembers(GeneratedMembers([], [], caseSensitive, v), keys)
    ensures NormMembers(GeneratedMembers([], [], caseSensitive, v))
         == DifferenceMap(NormMembers([]), NObject(NormMembers([])))
  {}

  lemma HeadsFine(ms: seq<Keyed<Value>>, keys: iset<Text>)
    requires FineMembers(ms, keys)
    ensures ms != [] ==> ms[0].key in keys && Fine(ms[0].value, keys)
  {}

  lemma DiffIsStrCmp(from: seq<Keyed<Value>>, to: seq<Keyed<Value>>)
    ensures from != [] && to != [] ==> CompareStrings(from[0].key, to[0].key, true) == StrCmp(from[0].key, to[0].key)
  {}

  lemma {:induction false} GeneratedMemberSaysDifference(from: Keyed<Value>, to: Keyed<Value>, keys: iset<Text>,
                                                         caseSensitive: bool,
                                                         v: Value)
    requires from.value < v && OrderedAlike(keys) && Fine(from.value, keys) && Fine(to.value, keys)
    ensures var r := GeneratedMember(from, to, caseSensitive, v);
            if Norm(from.value) == Norm(to.value) then r == []
            else |r| == 1 && r[0].key == to.key && Fine(r[0].value, keys)
                 && Norm(r[0].value) == Difference(Some(Norm(from.value)), Norm(to.value))
    decreases v, 0, 0
  {
    hide Fine, Norm, Same, Generated, Difference, OrderedAlike, Separates;
    OrderedAlikeSeparates(keys, caseSensitive);
    SameIsEquality(from.value, to.value, keys, caseSensitive);
    GeneratedSaysDifference(from.value, to.value, keys, false);
  }

  /** There is no patch exactly for two equal objects; otherwise the patch says the difference. */
  lemma {:induction false} GeneratedSaysDifference(from: Value, to: Value, keys: iset<Text>, caseSensitive: bool)
    requires Fine(from, keys) && Fine(to, keys) && OrderedAlike(keys)
    ensures Generated(from, to, caseSensitive).None? <==> from.Object? && to.Object? && Norm(from) == Norm(to)
    ensures match Generated(from, to, caseSensitive)
            case None => true
            case Some(p) => Fine(p, keys) && Norm(p) == Difference(Some(Norm(from)), Norm(to))
    decreases from, 1, 0
  {
    if from.Object? && to.Object? {
      var a, b := Sort(from.members, caseSensitive), Sort(to.members, caseSensitive);
      SortedInside(from.members, caseSensitive);
      FineObject(from.members, keys);
      FineObject(to.members, keys);
      SortKeepsMembers(from.members, keys, caseSensitive);
      SortKeepsMembers(to.members, keys, caseSensitive);
      SortIsSorted(from.members, caseSensitive);
      SortIsSorted(to.members, caseSensitive);
      hide Fine, FineMembers, NormMembers, Sorted, Sort, DifferenceMap, OrderedAlike, GeneratedMembers;
      SortedAlike(a, keys, caseSensitive);
      SortedAlike(b, keys, caseSensitive);
      GeneratedMembersSayDifference(a, b, keys, caseSensitive, from);
      var ps := GeneratedMembers(a, b, caseSensitive, from);
      FineObject(ps, keys);
      EmptyMap(ps);
      EmptyDifference(NormMembers(from.members), NormMembers(to.members));
    } else {
      DifferenceToScalar(from, to);
    }
  }

  lemma EmptyMap(ms: seq<Keyed<Value>>)
    ensures ms == [] <==> NormMembers(ms) == map[]
  {
    if ms != [] {
      assert ms[0].key in NormMembers(ms);
    }
  }

  lemma EmptyDifference(f: map<Text, NValue>, t: map<Text, NValue>)
    ensures DifferenceMap(f, NObject(t)) == map[] <==> f == t
  {
    hide Difference;
    var d := DifferenceMap(f, NObject(t));
    if d == map[] {
      forall k | k in f || k in t ensures k in f && k in t && f[k] == t[k] {
        assert k !in d;
      }
    }
  }

  lemma DifferenceToScalar(from: Value, to: Value)
    requires !from.Object? || !to.Object?
    ensures Difference(Some(Norm(from)), Norm(to)) == Norm(to)
  {
    DifferenceToNothing(Norm(to));
  }

  // ---------------------------------------------------------------------------------------------
  // The round trip
  // ---------------------------------------------------------------------------------------------

  /** Merging the generated patch, if there is one, into a prior copy of `from`. */
  function MergedBack(from: Value, to: Value, generating: bool, merging: bool): Value {
    match Generated(from, to, generating)
    case None => from
    case Some(p) => Merged(Some(from), p, merging)
  }

  /** The target is reached, up to member order, exactly if no null member has to be written; and there is no patch
      exactly for two equal objects. */
  lemma MergeDiffRoundTrip(from: Value, to: Value, keys: iset<Text>, generating: bool, merging: bool)
    requires Fine(from, keys) && Fine(to, keys) && OrderedAlike(keys)
    ensures Generated(from, to, generating).None? <==> from.Object? && to.Object? && Norm(from) == Norm(to)
    ensures Norm(MergedBack(from, to, generating, merging)) == Norm(to) <==> Reachable(Some(Norm(from)), Norm(to))
  {
    GeneratedSaysDifference(from, to, keys, generating);
    DifferenceReaches(Some(Norm(from)), Norm(to));
    match Generated(from, to, generating) {
      case None =>
        EqualIsReachable(Norm(from));
      case Some(p) =>
        hide Norm, Fine, Generated, Merged, Difference, MergeReference, OrderedAlike, Reachable;
        OrderedAlikeSeparates(keys, merging);
        MergeIsReference(Some(from), p, keys, merging);
    }
  }

  lemma EqualIsReachable(b: NValue)
    ensures Reachable(Some(b), b)
  {}

  /** No object of `v` that lies outside arrays has a null member. */
  predicate NoNullMembers(v: Value) {
    v.Object? ==> forall i :: 0 <= i < |v.members| ==> !v.members[i].value.Null? && NoNullMembers(v.members[i].value)
  }

  lemma {:induction false} WithoutNullsReachable(a: Option<NValue>, v: Value)
    requires NoNullMembers(v) && Proper(v)
    ensures Reachable(a, Norm(v))
    decreases v
  {
    if v.Object? {
      var f, t := MembersOf(a), NormMembers(v.members);
      NormMembersKeys(v.members);
      forall k | k in t ensures !t[k].NNull? && Reachable(if k in f then Some(f[k]) else None, t[k]) {
        var i :| 0 <= i < |v.members| && v.members[i].key == k;
        NormMembersAt(v.members, i);
        NormIsNull(v.members[i].value);
        WithoutNullsReachable(if k in f then Some(f[k]) else None, v.members[i].value);
      }
    }
  }

  /** Names without capital letters sort alike, so for targets without null members the round trip always succeeds. */
  lemma MergeDiffReaches(from: Value, to: Value, keys: iset<Text>, generating: bool, merging: bool)
    requires Fine(from, keys) && Fine(to, keys) && NoNullMembers(to)
    requires forall k, c :: k in keys && c in k ==> !('A' <= c <= 'Z')
    ensures Norm(MergedBack(from, to, generating, merging)) == Norm(to)
  {
    WithoutNullsReachable(Some(Norm(from)), to);
    forall x, y | x in keys && y in keys ensures StrCmp(x, y) < 0 <==> CompareStrings(x, y, false) < 0 {
      NotFolded(x);
      NotFolded(y);
    }
    hide Fine, Norm, Reachable, MergedBack;
    MergeDiffRoundTrip(from, to, keys, generating, merging);
  }

  lemma NotFolded(x: Text)
    requires forall c :: c in x ==> !('A' <= c <= 'Z')
    ensures Fold(x, false) == x
  {
    forall i | 0 <= i < |x| ensures LowerText(x)[i] == x[i] {
      assert x[i] in x;
    }
  }

  // ---------------------------------------------------------------------------------------------
  // Exactly which names
  // ---------------------------------------------------------------------------------------------

  /** The walk over two names that case-insensitive sorting has put in the other order, towards the first alone. */
  lemma SwappedPairGenerates(x: Text, y: Text)
    requires StrCmp(x, y) < 0 && CompareStrings(x, y, false) >= 0
    ensures var from, to := Object([Keyed(x, Bool(true)), Keyed(y, Bool(true))]), Object([Keyed(x, Bool(true))]);
            Generated(from, to, false) == Some(Object([Keyed(x, Bool(true)), Keyed(y, Null), Keyed(x, Null)]))
  {
    var a, b := Keyed(x, Bool(true)), Keyed(y, Bool(true));
    var from := Object([a, b]);
    SortPair(a, b, false);
    SortedInside([a, b], false);
    StrCmpAntisymmetric(x, y);
    hide Sort, StrCmp, CompareStrings, GeneratedMember;
    assert [b, a][1..] == [a] && [a][1..] == [];
    assert GeneratedMembers([], [], false, from) == [];
    assert GeneratedMembers([a], [], false, from) == [Keyed(x, Null)];
    assert GeneratedMembers([b, a], [], false, from) == [Keyed(y, Null), Keyed(x, Null)];
    assert GeneratedMembers([b, a], [a], false, from) == [a] + [Keyed(y, Null), Keyed(x, Null)];
    assert [a] + [Keyed(y, Null), Keyed(x, Null)] == [a, Keyed(y, Null), Keyed(x, Null)];
    assert Sort([a, b], false) == [b, a] && Sort([a], false) == [a];
  }

  /** Merging that patch takes both members out. */
  lemma SwappedPairMerges(x: Text, y: Text, merging: bool)
    requires x != y
    ensures var p := Object([Keyed(x, Bool(true)), Keyed(y, Null), Keyed(x, Null)]);
            Merged(Some(Object([Keyed(x, Bool(true)), Keyed(y, Bool(true))])), p, merging) == Object([])
  {
    var a, b := Keyed(x, Bool(true)), Keyed(y, Bool(true));
    var ps := [a, Keyed(y, Null), Keyed(x, Null)];
    assert ps[1..] == [Keyed(y, Null), Keyed(x, Null)] && ps[1..][1..] == [Keyed(x, Null)] && ps[1..][1..][1..] == [];
    FirstFound([a, b], x, merging);
    FirstFound([b, a], y, merging);
    FirstFound([a], x, merging);
    assert RemoveAt([a, b], 0) == [b] && RemoveAt([b, a], 0) == [a] && RemoveAt([a], 0) == [];
    hide FindKey, RemoveAt;
    assert MergedMember([a, b], ps[0], merging) == [b] + [a] == [b, a];
    assert MergedMember([b, a], ps[1], merging) == [a];
    assert MergedMember([a], ps[2], merging) == [];
    assert MergedMembers([], [], merging) == [];
    hide MergedMember;
    assert MergedMembers([a], ps[1..][1..], merging) == [];
    assert MergedMembers([b, a], ps[1..], merging) == [];
  }

  lemma FirstFound(ms: seq<Keyed<Value>>, k: Text, caseSensitive: bool)
    requires ms != [] && ms[0].key == k
    ensures FindKey(ms, 0, k, caseSensitive) == Some(0)
  {}

  lemma SinglePath(x: Text, from: Value, to: Value, p: Value, caseSensitive: bool)
    requires Generated(from, to, false) == Some(p) && !Same(from, to, caseSensitive)
    ensures Generated(Object([Keyed(x, from)]), Object([Keyed(x, to)]), caseSensitive) == Some(Object([Keyed(x, p)]))
  {
    var a, b := Keyed(x, from), Keyed(x, to);
    SortPair(a, a, caseSensitive);
    SortPair(b, b, caseSensitive);
    SortedInside([a], caseSensitive);
    StrCmpZero(x, x);
    hide Sort, StrCmp, Same;
    assert [a][1..] == [] && [b][1..] == [];
    var v := Object([a]);
    assert a.value < v;
    assert GeneratedMember(a, b, caseSensitive, v) == [Keyed(x, p)];
    assert GeneratedMembers([], [], caseSensitive, v) == [];
    assert GeneratedMembers([a], [b], caseSensitive, v) == [Keyed(x, p)] + [] == [Keyed(x, p)];
    assert Sort([a], caseSensitive) == [a] && Sort([b], caseSensitive) == [b];
  }

  lemma SingleMerge(x: Text, from: Value, p: Value, merging: bool)
    requires !p.Null?
    ensures Merged(Some(Object([Keyed(x, from)])), Object([Keyed(x, p)]), merging)
         == Object([Keyed(x, Merged(Some(from), p, merging))])
  {
    var a := Keyed(x, from);
    FirstFound([a], x, merging);
    assert RemoveAt([a], 0) == [] && [Keyed(x, p)][1..] == [];
    hide FindKey, RemoveAt, Merged;
    var m := Keyed(x, Merged(Some(from), p, merging));
    assert MergedMember([a], Keyed(x, p), merging) == [] + [m] == [m];
    assert MergedMembers([m], [], merging) == [m];
    assert MergedMembers([a], [Keyed(x, p)], merging) == [m];
    MergedObject([a], [Keyed(x, p)], merging);
  }

  lemma MergedObject(ms: seq<Keyed<Value>>, ps: seq<Keyed<Value>>, caseSensitive: bool)
    ensures Merged(Some(Object(ms)), Object(ps), caseSensitive) == Object(MergedMembers(ms, ps, caseSensitive))
  {}

  lemma SecondIsMissing(x: Text, y: Text, caseSensitive: bool)
    ensures !Same(Object([Keyed(x, Bool(true)), Keyed(y, Bool(true))]), Object([Keyed(x, Bool(true))]), caseSensitive)
  {
    var a, b := Keyed(x, Bool(true)), Keyed(y, Bool(true));
    SortPair(a, b, caseSensitive);
    SortPair(b, a, caseSensitive);
    SortedInside([a, b], caseSensitive);
    hide Sort, CompareStrings;
    assert Inside([b], Object([a, b])) && Inside([a], Object([a, b]));
    OneIsNotTwo(a, b, a, caseSensitive, Object([a, b]));
    OneIsNotTwo(b, a, a, caseSensitive, Object([a, b]));
  }

  lemma OneIsNotTwo(a: Keyed<Value>, b: Keyed<Value>, c: Keyed<Value>, caseSensitive: bool, v: Value)
    requires Inside([a, b], v)
    ensures !SameMembers([a, b], [c], caseSensitive, v)
  {
    hide CompareStrings, Same;
    assert [a, b][1..] == [b] && [c][1..] == [];
    assert b in [a, b];
    assert !SameMembers([b], [], caseSensitive, v);
  }

  lemma OneBool(x: Text)
    ensures NormMembers([Keyed(x, Bool(true))]) == map[x := NBool(true)] && NormMembers([]) == map[]
  {
    assert [Keyed(x, Bool(true))][1..] == [];
  }

  /** Two names that sort one way by their bytes and not so without regard to case: the patch from both to the first
      alone deletes both. The case-sensitive generator does so one level further down. */
  lemma SwappedNamesFail(x: Text, y: Text, generating: bool, merging: bool) returns (from: Value, to: Value)
    requires StrCmp(x, y) < 0 && CompareStrings(x, y, false) >= 0
    ensures forall keys :: x in keys && y in keys ==> Fine(from, keys) && Fine(to, keys)
    ensures NoNullMembers(to) && Norm(MergedBack(from, to, generating, merging)) != Norm(to)
  {
    var pair, one := Object([Keyed(x, Bool(true)), Keyed(y, Bool(true))]), Object([Keyed(x, Bool(true))]);
    StrCmpZero(x, y);
    SwappedPairGenerates(x, y);
    SwappedPairMerges(x, y, merging);
    OneBool(x);
    var p := Generated(pair, one, false).value;
    assert Merged(Some(pair), p, merging) == Object([]);
    assert x in NormMembers([Keyed(x, Bool(true))]) && x !in NormMembers([]);
    assert Norm(Object([])) != Norm(one);
    PairIsFine(x, y);
    OneWithoutNulls(x, Bool(true));
    OneWithoutNulls(x, one);
    hide Merged, Generated, Fine, StrCmp, CompareStrings;
    from, to := pair, one;
    if generating {
      SecondIsMissing(x, y, true);
      SinglePath(x, pair, one, p, true);
      SingleMerge(x, pair, p, merging);
      from, to := Object([Keyed(x, pair)]), Object([Keyed(x, one)]);
      NestedDiffers(x, Object([]), one);
    }
  }

  lemma OneWithoutNulls(x: Text, v: Value)
    requires !v.Null? && NoNullMembers(v)
    ensures NoNullMembers(Object([Keyed(x, v)]))
  {}

  lemma NestedDiffers(x: Text, v: Value, w: Value)
    requires Norm(v) != Norm(w)
    ensures Norm(Object([Keyed(x, v)])) != Norm(Object([Keyed(x, w)]))
  {
    OneMember(x, v);
    OneMember(x, w);
    assert NormMembers([Keyed(x, v)])[x] != NormMembers([Keyed(x, w)])[x];
  }

  lemma PairIsFine(x: Text, y: Text)
    requires x != y
    ensures var pair, one := Object([Keyed(x, Bool(true)), Keyed(y, Bool(true))]), Object([Keyed(x, Bool(true))]);
            forall keys :: x in keys && y in keys ==>
              && Fine(pair, keys) && Fine(one, keys)
              && Fine(Object([Keyed(x, pair)]), keys) && Fine(Object([Keyed(x, one)]), keys)
  {
    var pair, one := Object([Keyed(x, Bool(true)), Keyed(y, Bool(true))]), Object([Keyed(x, Bool(true))]);
    forall keys | x in keys && y in keys
      ensures Fine(pair, keys) && Fine(one, keys) && Fine(Object([Keyed(x, pair)]), keys)
      ensures Fine(Object([Keyed(x, one)]), keys)
    {
      assert Fine(Bool(true), keys);
      FineObject(pair.members, keys);
      FineObject(one.members, keys);
      FineObject([Keyed(x, pair)], keys);
      FineObject([Keyed(x, one)], keys);
    }
  }

  /** For all targets without null members the round trip succeeds exactly if the names sort alike with and without
      regard to case. */
  lemma MergeableExactly(keys: iset<Text>, generating: bool, merging: bool)
    ensures (forall from, to :: Fine(from, keys) && Fine(to, keys) && NoNullMembers(to) ==>
               Norm(MergedBack(from, to, generating, merging)) == Norm(to))
       <==> OrderedAlike(keys)
  {
    hide Fine, Norm, MergedBack, NoNullMembers, Reachable;
    if OrderedAlike(keys) {
      forall from, to | Fine(from, keys) && Fine(to, keys) && NoNullMembers(to)
        ensures Norm(MergedBack(from, to, generating, merging)) == Norm(to)
      {
        FineIsWithoutRepeats(to, keys);
        WithoutNullsReachable(Some(Norm(from)), to);
        MergeDiffRoundTrip(from, to, keys, generating, merging);
      }
    } else {
      var x, y :| x in keys && y in keys && !(StrCmp(x, y) < 0 <==> CompareStrings(x, y, false) < 0);
      StrCmpAntisymmetric(x, y);
      StrCmpAntisymmetric(Fold(x, false), Fold(y, false));
      StrCmpZero(x, y);
      StrCmpZero(Fold(x, false), Fold(x, false));
      var from, to;
      if StrCmp(x, y) < 0 {
        from, to := SwappedNamesFail(x, y, generating, merging);
      } else {
        from, to := SwappedNamesFail(y, x, generating, merging);
      }
    }
  }

  lemma FineIsWithoutRepeats(v: Value, keys: iset<Text>)
    requires Fine(v, keys)
    ensures Proper(v)
  {}
}
