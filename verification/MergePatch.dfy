/** JSON Merge Patch in cJSON_Utils.c as a function on values, against section 2 of RFC 7396. */
module MergePatch {
  import opened Bytes
  import opened Json
  import opened JsonPointer
  import opened KeyedSort
  import opened JsonNormal
  import opened JsonCompare
  import opened JsonPatch
  import opened PatchReference
  import opened PatchDiff

  // ---------------------------------------------------------------------------------------------
  // Merging values
  // ---------------------------------------------------------------------------------------------

  function Merged(target: Option<Value>, patch: Value, caseSensitive: bool): Value
    decreases patch
  {
    match patch
    case Object(ps) =>
      var ms := match target case Some(Object(ms)) => ms case _ => [];
      Object(MergedMembers(ms, ps, caseSensitive))
    case _ => patch
  }

  function MergedMembers(ms: seq<Keyed<Value>>, ps: seq<Keyed<Value>>, caseSensitive: bool): seq<Keyed<Value>>
    decreases ps
  {
    if ps == [] then ms else MergedMembers(MergedMember(ms, ps[0], caseSensitive), ps[1..], caseSensitive)
  }

  /** A null takes the member out; anything else moves it, merged, to the end. */
  function MergedMember(ms: seq<Keyed<Value>>, p: Keyed<Value>, caseSensitive: bool): seq<Keyed<Value>>
    decreases p
  {
    var found := FindKey(ms, 0, p.key, caseSensitive);
    var rest := if found.None? then ms else RemoveAt(ms, found.value);
    if p.value.Null? then rest else
    rest + [Keyed(p.key, Merged(if found.None? then None else Some(ms[found.value].value), p.value, caseSensitive))]
  }

  // ---------------------------------------------------------------------------------------------
  // Section 2 of RFC 7396
  // ---------------------------------------------------------------------------------------------

  function MergeReference(target: Option<NValue>, patch: NValue): NValue
    decreases patch, 1
  {
    match patch
    case NObject(_) =>
      NObject(MergeMap(match target case Some(NObject(m)) => m case _ => map[], patch))
    case _ => patch
  }

  function MergeMap(t: map<Text, NValue>, patch: NValue): map<Text, NValue>
    requires patch.NObject?
    decreases patch, 0
  {
    var p := patch.members;
    map k | k in t.Keys + p.Keys && !(k in p && p[k].NNull?) ::
      if k in p then MergeReference(if k in t then Some(t[k]) else None, p[k]) else t[k]
  }

  /** The first member of the patch can be merged ahead of the others. */
  lemma MergeFirst(t: map<Text, NValue>, p: map<Text, NValue>, k: Text, n: NValue)
    requires k !in p
    ensures MergeMap(t, NObject(p[k := n]))
         == MergeMap(if n.NNull? then t - {k} else t[k := MergeReference(if k in t then Some(t[k]) else None, n)],
                     NObject(p))
  {
    hide MergeReference;
  }

  function NormOption(v: Option<Value>): Option<NValue> {
    match v case None => None case Some(x) => Some(Norm(x))
  }

  lemma {:induction false} MergedMemberRefines(ms: seq<Keyed<Value>>, p: Keyed<Value>, keys: iset<Text>,
                                               caseSensitive: bool)
    requires Separates(keys, caseSensitive) && FineMembers(ms, keys) && p.key in keys && Fine(p.value, keys)
    ensures FineMembers(MergedMember(ms, p, caseSensitive), keys)
    ensures var t, k := NormMembers(ms), p.key;
            NormMembers(MergedMember(ms, p, caseSensitive))
            == if p.value.Null? then t - {k}
               else t[k := MergeReference(if k in t then Some(t[k]) else None, Norm(p.value))]
    decreases p
  {
    hide Fine, Norm, MergeReference, Merged, NormMembers, FindKey, FineMembers, Separates;
    TakeOut(ms, p.key, keys, caseSensitive);
    var found := FindKey(ms, 0, p.key, caseSensitive);
    var rest := if found.None? then ms else RemoveAt(ms, found.value);
    if !p.value.Null? {
      var old_value := if found.None? then None else Some(ms[found.value].value);
      MergeIsReference(old_value, p.value, keys, caseSensitive);
      var m := Keyed(p.key, Merged(old_value, p.value, caseSensitive));
      NormMembersAppend(rest, m);
      FineMembersAppend(rest, m, keys);
      MapReplace(NormMembers(ms), p.key, Norm(m.value));
    }
  }

  lemma MapReplace(m: map<Text, NValue>, k: Text, n: NValue)
    ensures (m - {k})[k := n] == m[k := n]
  {}

  /** The list without the member of this name, and what that member held. */
  lemma TakeOut(ms: seq<Keyed<Value>>, k: Text, keys: iset<Text>, caseSensitive: bool)
    requires Separates(keys, caseSensitive) && FineMembers(ms, keys) && k in keys
    ensures var found := FindKey(ms, 0, k, caseSensitive);
            var rest := if found.None? then ms else RemoveAt(ms, found.value);
            && FineMembers(rest, keys) && !HasKey(rest, k) && NormMembers(rest) == NormMembers(ms) - {k}
            && (found.Some? <==> k in NormMembers(ms))
            && (found.Some? ==> Fine(ms[found.value].value, keys) && NormMembers(ms)[k] == Norm(ms[found.value].value))
  {
    FindKeyIsExact(ms, 0, k, keys, caseSensitive);
    hide Fine, Norm, SameKey, NormMembers, FindKey;
    NormMembersKeys(ms);
    var found := FindKey(ms, 0, k, caseSensitive);
    if found.Some? {
      NormMembersAt(ms, found.value);
      NormMembersRemove(ms, found.value);
      FineMembersRemove(ms, found.value, keys);
    } else {
      MapWithout(NormMembers(ms), k);
    }
  }

  lemma MapWithout(m: map<Text, NValue>, k: Text)
    requires k !in m
    ensures m - {k} == m
  {}

  lemma {:induction false} MergedMembersRefine(ms: seq<Keyed<Value>>, ps: seq<Keyed<Value>>, keys: iset<Text>,
                                               caseSensitive: bool)
    requires Separates(keys, caseSensitive) && FineMembers(ms, keys) && FineMembers(ps, keys)
    ensures FineMembers(MergedMembers(ms, ps, caseSensitive), keys)
    ensures NormMembers(MergedMembers(ms, ps, caseSensitive)) == MergeMap(NormMembers(ms), NObject(NormMembers(ps)))
    decreases ps
  {
    hide Fine, Separates, MergeReference, MergedMember, Norm;
    if ps == [] {
      NothingMerged(NormMembers(ms));
    } else {
      var p := ps[0];
      MergedMemberRefines(ms, p, keys, caseSensitive);
      NormIsNull(p.value);
      NormMembersKeys(ps[1..]);
      MergeFirst(NormMembers(ms), NormMembers(ps[1..]), p.key, Norm(p.value));
      MergedMembersRefine(MergedMember(ms, p, caseSensitive), ps[1..], keys, caseSensitive);
    }
  }

  lemma NothingMerged(t: map<Text, NValue>)
    ensures MergeMap(t, NObject(map[])) == t
  {}

  lemma NormIsNull(v: Value)
    ensures Norm(v).NNull? <==> v.Null?
  {}

  /** The code computes the MergePatch function of section 2 of RFC 7396, for any nesting and for targets that are
      absent or no objects. */
  lemma {:induction false} MergeIsReference(target: Option<Value>, patch: Value, keys: iset<Text>, caseSensitive: bool)
    requires Separates(keys, caseSensitive) && Fine(patch, keys) && (target.Some? ==> Fine(target.value, keys))
    ensures Fine(Merged(target, patch, caseSensitive), keys)
    ensures Norm(Merged(target, patch, caseSensitive)) == MergeReference(NormOption(target), Norm(patch))
    decreases patch
  {
    if patch.Object? {
      hide Fine, MergeMap, MergedMembers, Separates, NormMembers, FineMembers;
      var ms: seq<Keyed<Value>> := match target case Some(Object(ms)) => ms case _ => [];
      EmptyIsFine(keys);
      FineObject(ms, keys);
      FineObject(patch.members, keys);
      FineObject(MergedMembers(ms, patch.members, caseSensitive), keys);
      MergedMembersRefine(ms, patch.members, keys, caseSensitive);
      assert (match NormOption(target) case Some(NObject(m)) => m case _ => map[]) == NormMembers(ms);
    }
  }

  lemma EmptyIsFine(keys: iset<Text>)
    ensures FineMembers([], keys) && NormMembers([]) == map[]
  {}

  /** In the case-sensitive variant this holds for all documents with distinct keys. */
  lemma CaseSensitiveMergeIsReference(target: Option<Value>, patch: Value)
    requires Proper(patch) && (target.Some? ==> Proper(target.value))
    ensures Norm(Merged(target, patch, true)) == MergeReference(NormOption(target), Norm(patch))
  {
    var keys: iset<Text> := iset k: Text | |k| >= 0;
    CaseSensitiveSeparates(keys);
    AllKeys(patch, keys);
    if target.Some? {
      AllKeys(target.value, keys);
    }
    MergeIsReference(target, patch, keys, true);
  }

  lemma {:induction false} AllKeys(v: Value, keys: iset<Text>)
    requires forall k :: k in keys
    ensures KeysIn(v, keys)
  {
    match v {
      case Array(items) =>
        forall i | 0 <= i < |items| ensures KeysIn(items[i], keys) {
          AllKeys(items[i], keys);
        }
      case Object(ms) =>
        forall i | 0 <= i < |ms| ensures KeysIn(ms[i].value, keys) {
          AllKeys(ms[i].value, keys);
        }
      case _ =>
    }
  }
}
