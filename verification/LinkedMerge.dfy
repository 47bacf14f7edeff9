/** `merge_patch` in place: a merge appends each member that it changes, and that goes by what the `prev` of the first
    child says. */
module LinkedMerge {
  import opened Bytes
  import opened Json
  import opened JsonPointer
  import opened KeyedSort
  import opened ListTail
  import opened JsonNormal
  import opened JsonCompare
  import opened JsonPatch
  import opened PatchReference
  import opened LinkedTree
  import opened LinkedPatch
  import opened PatchDiff
  import opened MergePatch
  import opened PatchLists
  import opened PatchRuns

  // ---------------------------------------------------------------------------------------------
  // The code
  // ---------------------------------------------------------------------------------------------

  /** The merged document; none if a pointer has been followed to an item that is not in its list any more. */
  function MergedTree(target: Option<Tree>, patch: Value, caseSensitive: bool): Option<Tree>
    decreases patch
  {
    match patch
    case Object(ps) =>
      (match target
       case Some(Group(ms, tail)) => MergedFrom(ms, tail, ps, caseSensitive)
       case _ => MergedFrom([], Nothing, ps, caseSensitive))
    case _ => Some(Fresh(patch))
  }

  function MergedFrom(ms: seq<Keyed<Tree>>, tail: Tail, ps: seq<Keyed<Value>>, caseSensitive: bool): Option<Tree>
    decreases ps
  {
    if ps == [] then Some(Group(ms, tail)) else
    match MergedOne(ms, tail, ps[0], caseSensitive)
    case Effect(_, Group(ms', tail')) => MergedFrom(ms', tail', ps[1..], caseSensitive)
    case _ => None
  }

  function OldValue(ms: seq<Keyed<Tree>>, name: Text, caseSensitive: bool): Option<Tree> {
    match FindKey(ms, 0, name, caseSensitive) case None => None case Some(i) => Some(ms[i].value)
  }

  function MergedOne(ms: seq<Keyed<Tree>>, tail: Tail, p: Keyed<Value>, caseSensitive: bool): Effect
    decreases p
  {
    var (rest, tail') := Cleared(ms, tail, p.key, caseSensitive);
    if p.value.Null? then Effect(0, Group(rest, tail')) else
    match MergedTree(OldValue(ms, p.key, caseSensitive), p.value, caseSensitive)
    case None => Stray
    case Some(m) => Append(rest, tail', Keyed(p.key, m))
  }

  method Merge(target: Option<Tree>, patch: Value, caseSensitive: bool) returns (r: Option<Tree>)
    ensures r == MergedTree(target, patch, caseSensitive)
    decreases patch
  {
    if !patch.Object? {
      return Some(Fresh(patch));
    }
    var members: seq<Keyed<Tree>>, tail := [], Nothing;
    if target.Some? && target.value.Group? {
      members, tail := target.value.members, target.value.tail;
    }
    ghost var goal := MergedFrom(members, tail, patch.members, caseSensitive);
    assert patch.members[0..] == patch.members;
    var i := 0;
    while i < |patch.members|
      invariant 0 <= i <= |patch.members|
      invariant MergedFrom(members, tail, patch.members[i..], caseSensitive) == goal
    {
      var p := patch.members[i];
      assert patch.members[i..][0] == p && patch.members[i..][1..] == patch.members[i + 1..];
      var replace_me := OldValue(members, p.key, caseSensitive);
      var (rest, tail') := Cleared(members, tail, p.key, caseSensitive);
      if p.value.Null? {
        members, tail := rest, tail';
      } else {
        var replacement := Merge(replace_me, p.value, caseSensitive);
        if replacement.None? {
          return None;
        }
        var linked := Append(rest, tail', Keyed(p.key, replacement.value));
        if linked.Stray? {
          return None;
        }
        members, tail := linked.document.members, linked.document.tail;
      }
      i := i + 1;
    }
    r := Some(Group(members, tail));
  }

  // ---------------------------------------------------------------------------------------------
  // When a merge keeps what it adds
  // ---------------------------------------------------------------------------------------------

  /** Everything is linked behind the last member. */
  predicate MergeKeeps(target: Option<Tree>, patch: Value, caseSensitive: bool)
    decreases patch
  {
    match patch
    case Object(ps) =>
      (match target
       case Some(Group(ms, tail)) => KeepsFrom(ms, tail, ps, caseSensitive)
       case _ => KeepsFrom([], Nothing, ps, caseSensitive))
    case _ => true
  }

  predicate KeepsFrom(ms: seq<Keyed<Tree>>, tail: Tail, ps: seq<Keyed<Value>>, caseSensitive: bool)
    decreases ps
  {
    ps == [] || (
      KeepsOne(ms, tail, ps[0], caseSensitive) &&
      match MergedOne(ms, tail, ps[0], caseSensitive)
      case Effect(_, Group(ms', tail')) => KeepsFrom(ms', tail', ps[1..], caseSensitive)
      case _ => false)
  }

  predicate KeepsOne(ms: seq<Keyed<Tree>>, tail: Tail, p: Keyed<Value>, caseSensitive: bool)
    decreases p
  {
    p.value.Null? || (
      var (rest, tail') := Cleared(ms, tail, p.key, caseSensitive);
      Right(tail', |rest|) && MergeKeeps(OldValue(ms, p.key, caseSensitive), p.value, caseSensitive))
  }

  function PlainOption(t: Option<Tree>): Option<Value> {
    match t case None => None case Some(x) => Some(Plain(x))
  }

  lemma OldValueIsFound(ms: seq<Keyed<Tree>>, name: Text, caseSensitive: bool)
    ensures var found := FindKey(PlainMembers(ms), 0, name, caseSensitive);
            && PlainOption(OldValue(ms, name, caseSensitive))
               == (match found case None => None case Some(i) => Some(PlainMembers(ms)[i].value))
            && PlainMembers(Cleared(ms, Nothing, name, caseSensitive).0)
               == (match found case None => PlainMembers(ms) case Some(i) => RemoveAt(PlainMembers(ms), i))
  {
    hide FindKey, Plain;
    SameKeyFound(ms, 0, name, caseSensitive);
    var found := FindKey(ms, 0, name, caseSensitive);
    if found.Some? {
      PlainRemoved(ms, found.value);
    }
  }

  /** Then the merge is that of values. */
  lemma {:induction false} KeptIsMerged(target: Option<Tree>, patch: Value, caseSensitive: bool)
    requires MergeKeeps(target, patch, caseSensitive)
    ensures var r := MergedTree(target, patch, caseSensitive);
            r.Some? && Plain(r.value) == Merged(PlainOption(target), patch, caseSensitive)
    decreases patch
  {
    if patch.Object? {
      match target {
        case Some(Group(ms, tail)) =>
          KeptFromIsMerged(ms, tail, patch.members, caseSensitive);
        case _ =>
          KeptFromIsMerged([], Nothing, patch.members, caseSensitive);
      }
    }
  }

  lemma {:induction false} KeptFromIsMerged(ms: seq<Keyed<Tree>>, tail: Tail, ps: seq<Keyed<Value>>,
                                            caseSensitive: bool)
    requires KeepsFrom(ms, tail, ps, caseSensitive)
    ensures var r := MergedFrom(ms, tail, ps, caseSensitive);
            r.Some? && Plain(r.value) == Object(MergedMembers(PlainMembers(ms), ps, caseSensitive))
    decreases ps
  {
    hide MergedOne, KeepsOne, MergedMember;
    if ps != [] {
      KeptOneIsMerged(ms, tail, ps[0], caseSensitive);
      var e := MergedOne(ms, tail, ps[0], caseSensitive);
      KeptFromIsMerged(e.document.members, e.document.tail, ps[1..], caseSensitive);
    }
  }

  lemma {:induction false} KeptOneIsMerged(ms: seq<Keyed<Tree>>, tail: Tail, p: Keyed<Value>, caseSensitive: bool)
    requires KeepsOne(ms, tail, p, caseSensitive)
    ensures var e := MergedOne(ms, tail, p, caseSensitive);
            e.Effect? && e.document.Group?
            && PlainMembers(e.document.members) == MergedMember(PlainMembers(ms), p, caseSensitive)
    decreases p
  {
    hide FindKey, Plain, Append, MergedTree, Merged, MergeKeeps;
    OldValueIsFound(ms, p.key, caseSensitive);
    if !p.value.Null? {
      var old_value := OldValue(ms, p.key, caseSensitive);
      KeptIsMerged(old_value, p.value, caseSensitive);
      var (rest, tail') := Cleared(ms, tail, p.key, caseSensitive);
      var m := Keyed(p.key, MergedTree(old_value, p.value, caseSensitive).value);
      AppendedBehind(rest, tail', m);
      PlainJoined(rest, [m]);
      assert PlainMembers([m]) == [Keyed(m.key, Plain(m.value))];
    }
  }

  /** A member that is not linked behind the last one is missing at once. */
  lemma NotKeptIsMissing(ms: seq<Keyed<Tree>>, tail: Tail, p: Keyed<Value>, caseSensitive: bool)
    requires !p.value.Null?
    requires var (rest, tail') := Cleared(ms, tail, p.key, caseSensitive); !Right(tail', |rest|)
    ensures var e := MergedOne(ms, tail, p, caseSensitive);
            e.Effect? ==>
              e.document.Group? && |e.document.members| < |MergedMember(PlainMembers(ms), p, caseSensitive)|
  {
    hide FindKey, Plain, Append, MergedTree, Merged, Right;
    OldValueIsFound(ms, p.key, caseSensitive);
    var (rest, tail') := Cleared(ms, tail, p.key, caseSensitive);
    assert |MergedMember(PlainMembers(ms), p, caseSensitive)| == |rest| + 1;
    var r := MergedTree(OldValue(ms, p.key, caseSensitive), p.value, caseSensitive);
    if r.Some? {
      AppendIsAppend(rest, tail', Keyed(p.key, r.value));
    }
  }

  /** If the links of the target are right, everything is kept, and they stay right. */
  lemma {:induction false} SoundMerge(target: Option<Tree>, patch: Value, caseSensitive: bool)
    requires target.Some? ==> Sound(target.value)
    ensures MergeKeeps(target, patch, caseSensitive)
    ensures var r := MergedTree(target, patch, caseSensitive); r.Some? && Sound(r.value)
    decreases patch
  {
    if patch.Object? {
      match target {
        case Some(Group(ms, tail)) =>
          SoundFrom(ms, tail, patch.members, caseSensitive);
        case _ =>
          SoundFrom([], Nothing, patch.members, caseSensitive);
      }
    }
  }

  lemma {:induction false} SoundFrom(ms: seq<Keyed<Tree>>, tail: Tail, ps: seq<Keyed<Value>>, caseSensitive: bool)
    requires Sound(Group(ms, tail))
    ensures KeepsFrom(ms, tail, ps, caseSensitive)
    ensures var r := MergedFrom(ms, tail, ps, caseSensitive); r.Some? && Sound(r.value)
    decreases ps
  {
    hide MergedOne, KeepsOne, Sound;
    if ps != [] {
      SoundOne(ms, tail, ps[0], caseSensitive);
      var e := MergedOne(ms, tail, ps[0], caseSensitive);
      SoundFrom(e.document.members, e.document.tail, ps[1..], caseSensitive);
    }
  }

  lemma {:induction false} SoundOne(ms: seq<Keyed<Tree>>, tail: Tail, p: Keyed<Value>, caseSensitive: bool)
    requires Sound(Group(ms, tail))
    ensures KeepsOne(ms, tail, p, caseSensitive)
    ensures var e := MergedOne(ms, tail, p, caseSensitive); e.Effect? && e.document.Group? && Sound(e.document)
    decreases p
  {
    hide FindKey, Append, MergedTree, MergeKeeps;
    ClearedIsSound(ms, tail, p.key, caseSensitive);
    if !p.value.Null? {
      var old_value := OldValue(ms, p.key, caseSensitive);
      SoundMerge(old_value, p.value, caseSensitive);
      var (rest, tail') := Cleared(ms, tail, p.key, caseSensitive);
      AppendedBehind(rest, tail', Keyed(p.key, MergedTree(old_value, p.value, caseSensitive).value));
    }
  }

  // ---------------------------------------------------------------------------------------------
  // Step by step
  // ---------------------------------------------------------------------------------------------

  /** What section 2 of RFC 7396 makes of the members for one member of the patch. */
  function AskedOne(t: map<Text, NValue>, p: Keyed<Value>): map<Text, NValue> {
    if p.value.Null? then t - {p.key}
    else t[p.key := MergeReference(if p.key in t then Some(t[p.key]) else None, Norm(p.value))]
  }

  /** Every step at every level does that. */
  predicate MergeFollows(target: Option<Tree>, patch: Value, caseSensitive: bool)
    decreases patch
  {
    match patch
    case Object(ps) =>
      (match target
       case Some(Group(ms, tail)) => FollowsFrom(ms, tail, ps, caseSensitive)
       case _ => FollowsFrom([], Nothing, ps, caseSensitive))
    case _ => true
  }

  predicate FollowsFrom(ms: seq<Keyed<Tree>>, tail: Tail, ps: seq<Keyed<Value>>, caseSensitive: bool)
    decreases ps
  {
    ps == [] || (
      FollowsOne(ms, tail, ps[0], caseSensitive) &&
      match MergedOne(ms, tail, ps[0], caseSensitive)
      case Effect(_, Group(ms', tail')) => FollowsFrom(ms', tail', ps[1..], caseSensitive)
      case _ => false)
  }

  predicate FollowsOne(ms: seq<Keyed<Tree>>, tail: Tail, p: Keyed<Value>, caseSensitive: bool)
    decreases p
  {
    && (p.value.Null? || MergeFollows(OldValue(ms, p.key, caseSensitive), p.value, caseSensitive))
    && match MergedOne(ms, tail, p, caseSensitive)
       case Effect(_, d) => Norm(Plain(d)) == NObject(AskedOne(NormMembers(PlainMembers(ms)), p))
       case _ => false
  }

  ghost predicate FineTarget(target: Option<Tree>, keys: iset<Text>) {
    target.Some? ==> Fine(Plain(target.value), keys)
  }

  /** A merge does step by step what RFC 7396 says exactly if everything is linked behind the last member. */
  lemma {:induction false} FollowsIfKept(target: Option<Tree>, patch: Value, keys: iset<Text>, caseSensitive: bool)
    requires Separates(keys, caseSensitive) && Fine(patch, keys) && FineTarget(target, keys)
    ensures MergeFollows(target, patch, caseSensitive) <==> MergeKeeps(target, patch, caseSensitive)
    decreases patch
  {
    if patch.Object? {
      FineObject(patch.members, keys);
      hide Fine, FollowsFrom, KeepsFrom;
      match target {
        case Some(Group(ms, tail)) =>
          FineObject(PlainMembers(ms), keys);
          FollowsFromIfKept(ms, tail, patch.members, keys, caseSensitive);
        case _ =>
          EmptyIsFine(keys);
          assert PlainMembers([]) == [];
          FollowsFromIfKept([], Nothing, patch.members, keys, caseSensitive);
      }
    }
  }

  lemma {:induction false} FollowsFromIfKept(ms: seq<Keyed<Tree>>, tail: Tail, ps: seq<Keyed<Value>>,
                                             keys: iset<Text>, caseSensitive: bool)
    requires Separates(keys, caseSensitive) && FineMembers(ps, keys) && FineTrees(ms, keys)
    ensures FollowsFrom(ms, tail, ps, caseSensitive) <==> KeepsFrom(ms, tail, ps, caseSensitive)
    decreases ps
  {
    hide MergedOne, KeepsOne, FollowsOne, Fine, FineTrees, Separates;
    if ps != [] {
      FollowsOneIfKept(ms, tail, ps[0], keys, caseSensitive);
      if KeepsOne(ms, tail, ps[0], caseSensitive) {
        var e := MergedOne(ms, tail, ps[0], caseSensitive);
        FollowsFromIfKept(e.document.members, e.document.tail, ps[1..], keys, caseSensitive);
      }
    }
  }

  lemma {:induction false} FollowsOneIfKept(ms: seq<Keyed<Tree>>, tail: Tail, p: Keyed<Value>, keys: iset<Text>,
                                            caseSensitive: bool)
    requires Separates(keys, caseSensitive) && Fine(p.value, keys) && p.key in keys && FineTrees(ms, keys)
    ensures FollowsOne(ms, tail, p, caseSensitive) <==> KeepsOne(ms, tail, p, caseSensitive)
    ensures KeepsOne(ms, tail, p, caseSensitive) ==>
              var e := MergedOne(ms, tail, p, caseSensitive);
              e.Effect? && e.document.Group? && FineTrees(e.document.members, keys)
    decreases p
  {
    hide FindKey, Plain, Fine, MergedTree, MergeKeeps, MergeFollows, Norm, NormMembers, MergedMember, MergeReference;
    hide Separates, FineMembers;
    MergedMemberRefines(PlainMembers(ms), p, keys, caseSensitive);
    if !p.value.Null? {
      OldValueIsFine(ms, p.key, keys, caseSensitive);
      FollowsIfKept(OldValue(ms, p.key, caseSensitive), p.value, keys, caseSensitive);
    }
    if KeepsOne(ms, tail, p, caseSensitive) {
      KeptOneIsMerged(ms, tail, p, caseSensitive);
      NormOfGroup(MergedOne(ms, tail, p, caseSensitive).document);
    } else if MergeKeeps(OldValue(ms, p.key, caseSensitive), p.value, caseSensitive) {
      NotKeptIsMissing(ms, tail, p, caseSensitive);
      var e, goal := MergedOne(ms, tail, p, caseSensitive), MergedMember(PlainMembers(ms), p, caseSensitive);
      if e.Effect? {
        NormOfGroup(e.document);
        DistinctOfFine(goal, keys);
        FewerMembersDiffer(PlainMembers(e.document.members), goal);
        NormOfObject(goal);
      }
    }
  }

  lemma OldValueIsFine(ms: seq<Keyed<Tree>>, name: Text, keys: iset<Text>, caseSensitive: bool)
    requires FineTrees(ms, keys)
    ensures FineTarget(OldValue(ms, name, caseSensitive), keys)
  {
    hide FindKey, Plain, Fine;
    KeysDiffer(ms, keys);
  }

  lemma NormOfGroup(d: Tree)
    requires d.Group?
    ensures Plain(d) == Object(PlainMembers(d.members))
    ensures Norm(Plain(d)) == NObject(NormMembers(PlainMembers(d.members)))
  {}

  lemma NormOfObject(ms: seq<Keyed<Value>>)
    ensures Norm(Object(ms)) == NObject(NormMembers(ms))
  {}

  lemma DistinctOfFine(ms: seq<Keyed<Value>>, keys: iset<Text>)
    requires FineMembers(ms, keys)
    ensures DistinctKeys(ms)
  {}

  // ---------------------------------------------------------------------------------------------
  // Which targets
  // ---------------------------------------------------------------------------------------------

  /** No member of the patch but nulls comes before the one that takes out, or replaces, the last member. */
  predicate LastFirst(ms: seq<Keyed<Tree>>, ps: seq<Keyed<Value>>) {
    forall j :: 0 <= j < |ps| && !ps[j].value.Null? ==>
      ms != [] && exists i :: 0 <= i <= j && ps[i].key == ms[|ms| - 1].key
  }

  predicate SharedFits(ms: seq<Keyed<Tree>>, ps: seq<Keyed<Value>>)
    decreases ps
  {
    forall i, j :: 0 <= i < |ms| && 0 <= j < |ps| && ms[i].key == ps[j].key ==>
      MergeFits(Some(ms[i].value), ps[j].value)
  }

  /** In every object that has something to be merged into, the links are right, or the last member goes first. */
  predicate MergeFits(target: Option<Tree>, patch: Value)
    decreases patch
  {
    match patch
    case Object(ps) =>
      (match target
       case Some(Group(ms, tail)) => (Right(tail, |ms|) || LastFirst(ms, ps)) && SharedFits(ms, ps)
       case _ => true)
    case _ => true
  }

  lemma FirstOfPatch(ms: seq<Keyed<Tree>>, ps: seq<Keyed<Value>>)
    requires ps != []
    ensures SharedFits(ms, ps)
       <==> (forall i :: 0 <= i < |ms| && ms[i].key == ps[0].key ==> MergeFits(Some(ms[i].value), ps[0].value))
            && SharedFits(ms, ps[1..])
  {
    hide MergeFits;
    var rest := ps[1..];
    assert forall j :: 0 <= j < |rest| ==> rest[j] == ps[j + 1];
    forall j | 0 < j < |ps| ensures rest[j - 1] == ps[j] {}
  }

  /** Members of this name do not count for the rest of a patch that names it no more. */
  lemma OthersFit(ms: seq<Keyed<Tree>>, others: seq<Keyed<Tree>>, k: Text, ps: seq<Keyed<Value>>)
    requires forall m: Keyed<Tree> :: m.key != k ==> (m in ms <==> m in others)
    requires forall j :: 0 <= j < |ps| ==> ps[j].key != k
    ensures SharedFits(ms, ps) <==> SharedFits(others, ps)
  {
    hide MergeFits;
    forall i, j | 0 <= i < |ms| && 0 <= j < |ps| && ms[i].key == ps[j].key ensures ms[i] in others {}
    forall i, j | 0 <= i < |others| && 0 <= j < |ps| && others[i].key == ps[j].key ensures others[i] in ms {}
  }

  /** Where the member to be changed is, and what is left without it. */
  lemma ClearedParts(ms: seq<Keyed<Tree>>, tail: Tail, k: Text, keys: iset<Text>, caseSensitive: bool)
    requires Separates(keys, caseSensitive) && FineTrees(ms, keys) && k in keys
    ensures var found, r := FindKey(ms, 0, k, caseSensitive), Cleared(ms, tail, k, caseSensitive);
            && (found.None? ==> r == (ms, tail) && forall i :: 0 <= i < |ms| ==> ms[i].key != k)
            && (found.Some? ==>
                  && r == (RemoveAt(ms, found.value), Without(tail, |ms|, found.value)) && ms[found.value].key == k
                  && forall i :: 0 <= i < |ms| && ms[i].key == k ==> i == found.value)
            && (forall m: Keyed<Tree> :: m.key != k ==> (m in ms <==> m in r.0))
            && FineTrees(r.0, keys)
  {
    hide FindKey, Plain, Fine, Separates;
    MemberFound(ms, k, keys, caseSensitive);
    KeysDiffer(ms, keys);
    var found := FindKey(ms, 0, k, caseSensitive);
    if found.Some? {
      FineWithout(ms, found.value, keys);
      assert ms == ms[..found.value] + [ms[found.value]] + ms[found.value + 1..];
    }
  }

  lemma NullGoes(ms: seq<Keyed<Tree>>, tail: Tail, ps: seq<Keyed<Value>>, i: nat)
    requires ps != [] && ps[0].value.Null? && i < |ms| && ms[i].key == ps[0].key
    requires forall j :: 0 <= j < |ms| && ms[j].key == ps[0].key ==> j == i
    ensures Right(tail, |ms|) || LastFirst(ms, ps)
       <==> Right(Without(tail, |ms|, i), |ms| - 1) || LastFirst(RemoveAt(ms, i), ps[1..])
  {
    RightAfter(tail, |ms|, i);
    hide Right, Without;
    if i == |ms| - 1 {
      assert LastFirst(ms, ps);
    } else {
      var rest := RemoveAt(ms, i);
      assert rest[|rest| - 1] == ms[|ms| - 1];
      LastBehind(ms, rest, ps);
    }
  }

  lemma RightAfter(tail: Tail, n: nat, i: nat)
    requires i < n
    ensures Right(Without(tail, n, i), n - 1) <==> Right(tail, n) || i == n - 1
  {
    if Right(tail, n) {
      WithoutKeepsRight(tail, n, i);
    } else {
      WithoutRepairs(tail, n, i);
    }
  }

  lemma LastBehind(ms: seq<Keyed<Tree>>, rest: seq<Keyed<Tree>>, ps: seq<Keyed<Value>>)
    requires ps != [] && ps[0].value.Null? && (ms == [] <==> rest == [])
    requires ms != [] ==> rest[|rest| - 1] == ms[|ms| - 1] && ms[|ms| - 1].key != ps[0].key
    ensures LastFirst(ms, ps) <==> LastFirst(rest, ps[1..])
  {
    var more := ps[1..];
    assert forall j :: 0 <= j < |more| ==> more[j] == ps[j + 1];
    if LastFirst(rest, more) {
      forall j | 0 <= j < |ps| && !ps[j].value.Null?
        ensures ms != [] && exists i :: 0 <= i <= j && ps[i].key == ms[|ms| - 1].key
      {
        assert more[j - 1] == ps[j];
        var i :| 0 <= i <= j - 1 && more[i].key == rest[|rest| - 1].key;
        assert ps[i + 1] == more[i];
      }
    }
    if LastFirst(ms, ps) {
      forall j | 0 <= j < |more| && !more[j].value.Null?
        ensures rest != [] && exists i :: 0 <= i <= j && more[i].key == rest[|rest| - 1].key
      {
        assert ps[j + 1] == more[j];
        var i :| 0 <= i <= j + 1 && ps[i].key == ms[|ms| - 1].key;
        assert more[i - 1] == ps[i];
      }
    }
  }

  lemma ValueComes(ms: seq<Keyed<Tree>>, tail: Tail, ps: seq<Keyed<Value>>, found: Option<nat>)
    requires ps != [] && !ps[0].value.Null?
    requires found.Some? ==> found.value < |ms| && ms[found.value].key == ps[0].key
    requires forall j :: 0 <= j < |ms| && ms[j].key == ps[0].key ==> found == Some(j)
    ensures Right(tail, |ms|) || LastFirst(ms, ps)
       <==> match found case None => Right(tail, |ms|) case Some(i) => Right(Without(tail, |ms|, i), |ms| - 1)
  {
    if found.Some? {
      RightAfter(tail, |ms|, found.value);
    }
    hide Right, Without;
    if LastFirst(ms, ps) {
      assert ms != [] && ps[0].key == ms[|ms| - 1].key;
    }
  }

  lemma {:induction false} FitsIfKept(target: Option<Tree>, patch: Value, keys: iset<Text>, caseSensitive: bool)
    requires Separates(keys, caseSensitive) && Fine(patch, keys) && FineTarget(target, keys)
    ensures MergeKeeps(target, patch, caseSensitive) <==> MergeFits(target, patch)
    decreases patch
  {
    if patch.Object? {
      FineObject(patch.members, keys);
      hide Fine, KeepsFrom, LastFirst, SharedFits;
      match target {
        case Some(Group(ms, tail)) =>
          FineObject(PlainMembers(ms), keys);
          FitsFromIfKept(ms, tail, patch.members, keys, caseSensitive);
        case _ =>
          SoundMerge(None, patch, caseSensitive);
      }
    }
  }

  lemma {:induction false} FitsFromIfKept(ms: seq<Keyed<Tree>>, tail: Tail, ps: seq<Keyed<Value>>, keys: iset<Text>,
                                          caseSensitive: bool)
    requires Separates(keys, caseSensitive) && FineMembers(ps, keys) && FineTrees(ms, keys)
    ensures KeepsFrom(ms, tail, ps, caseSensitive)
       <==> (Right(tail, |ms|) || LastFirst(ms, ps)) && SharedFits(ms, ps)
    decreases ps
  {
    if ps == [] {
      return;
    }
    hide MergedOne, KeepsOne, Fine, FineTrees, Separates, MergeFits, Cleared, FineMembers, OldValue, SharedFits;
    hide LastFirst, Right;
    var p, e := ps[0], MergedOne(ms, tail, ps[0], caseSensitive);
    RestOfPatch(ps, keys);
    FollowsOneIfKept(ms, tail, p, keys, caseSensitive);
    if KeepsOne(ms, tail, p, caseSensitive) {
      FitsFromIfKept(e.document.members, e.document.tail, ps[1..], keys, caseSensitive);
    }
    if p.value.Null? {
      NullStep(ms, tail, ps, keys, caseSensitive);
    } else {
      OldValueIsFine(ms, p.key, keys, caseSensitive);
      FitsIfKept(OldValue(ms, p.key, caseSensitive), p.value, keys, caseSensitive);
      ValueStep(ms, tail, ps, keys, caseSensitive);
    }
  }

  lemma RestOfPatch(ps: seq<Keyed<Value>>, keys: iset<Text>)
    requires ps != [] && FineMembers(ps, keys)
    ensures ps[0].key in keys && Fine(ps[0].value, keys) && FineMembers(ps[1..], keys)
    ensures forall j :: 0 <= j < |ps[1..]| ==> ps[1..][j].key != ps[0].key
  {
    hide Fine;
  }

  lemma NullStep(ms: seq<Keyed<Tree>>, tail: Tail, ps: seq<Keyed<Value>>, keys: iset<Text>, caseSensitive: bool)
    requires Separates(keys, caseSensitive) && FineMembers(ps, keys) && FineTrees(ms, keys)
    requires ps != [] && ps[0].value.Null?
    ensures KeepsOne(ms, tail, ps[0], caseSensitive)
    ensures var e := MergedOne(ms, tail, ps[0], caseSensitive);
            && e.Effect? && e.document.Group?
            && (SharedFits(ms, ps) <==> SharedFits(e.document.members, ps[1..]))
            && (Right(tail, |ms|) || LastFirst(ms, ps)
                <==> Right(e.document.tail, |e.document.members|) || LastFirst(e.document.members, ps[1..]))
  {
    hide Cleared, FindKey, Fine, FineTrees, Separates, Right, LastFirst, SharedFits;
    var p, found := ps[0], FindKey(ms, 0, ps[0].key, caseSensitive);
    var (rest, tail') := Cleared(ms, tail, p.key, caseSensitive);
    RestOfPatch(ps, keys);
    hide FineMembers;
    ClearedParts(ms, tail, p.key, keys, caseSensitive);
    FirstOfPatch(ms, ps);
    OthersFit(ms, rest, p.key, ps[1..]);
    if found.Some? {
      NullGoes(ms, tail, ps, found.value);
    } else {
      LastBehind(ms, ms, ps);
    }
  }

  lemma ValueStep(ms: seq<Keyed<Tree>>, tail: Tail, ps: seq<Keyed<Value>>, keys: iset<Text>, caseSensitive: bool)
    requires Separates(keys, caseSensitive) && FineMembers(ps, keys) && FineTrees(ms, keys)
    requires ps != [] && !ps[0].value.Null?
    requires var old_value := OldValue(ms, ps[0].key, caseSensitive);
             MergeKeeps(old_value, ps[0].value, caseSensitive) <==> MergeFits(old_value, ps[0].value)
    ensures var e := MergedOne(ms, tail, ps[0], caseSensitive);
            if KeepsOne(ms, tail, ps[0], caseSensitive) then
              && e.Effect? && e.document.Group? && Right(e.document.tail, |e.document.members|)
              && (Right(tail, |ms|) || LastFirst(ms, ps))
              && (SharedFits(ms, ps) <==> SharedFits(e.document.members, ps[1..]))
            else !((Right(tail, |ms|) || LastFirst(ms, ps)) && SharedFits(ms, ps))
  {
    hide Cleared, FindKey, Fine, FineTrees, Separates, LastFirst, SharedFits, MergedTree, MergeKeeps, Append, MergeFits;
    var p, found := ps[0], FindKey(ms, 0, ps[0].key, caseSensitive);
    var (rest, tail') := Cleared(ms, tail, p.key, caseSensitive);
    RestOfPatch(ps, keys);
    hide FineMembers;
    ClearedParts(ms, tail, p.key, keys, caseSensitive);
    FirstOfPatch(ms, ps);
    NothingFits(p.value);
    ValueComes(ms, tail, ps, found);
    OthersFit(ms, rest, p.key, ps[1..]);
    if KeepsOne(ms, tail, p, caseSensitive) {
      var old_value := OldValue(ms, p.key, caseSensitive);
      KeptIsMerged(old_value, p.value, caseSensitive);
      var m := Keyed(p.key, MergedTree(old_value, p.value, caseSensitive).value);
      AppendedBehind(rest, tail', m);
      OthersFit(rest, rest + [m], p.key, ps[1..]);
    }
  }

  lemma NothingFits(patch: Value)
    ensures MergeFits(None, patch)
  {}

  /** A merge in place does step by step what RFC 7396 says exactly if the target fits; then it leaves what the merge of
      values is. */
  lemma MergeInPlaceExactly(target: Option<Tree>, patch: Value, keys: iset<Text>, caseSensitive: bool)
    requires Separates(keys, caseSensitive) && Fine(patch, keys) && FineTarget(target, keys)
    ensures MergeFollows(target, patch, caseSensitive) <==> MergeFits(target, patch)
    ensures MergeFits(target, patch) ==>
              var r := MergedTree(target, patch, caseSensitive);
              r.Some? && Norm(Plain(r.value)) == MergeReference(NormOption(PlainOption(target)), Norm(patch))
  {
    hide Fine, Norm, Merged, MergedTree, MergeFits, MergeKeeps, MergeFollows, Plain, Separates;
    FollowsIfKept(target, patch, keys, caseSensitive);
    FitsIfKept(target, patch, keys, caseSensitive);
    if MergeKeeps(target, patch, caseSensitive) {
      KeptIsMerged(target, patch, caseSensitive);
      MergeIsReference(PlainOption(target), patch, keys, caseSensitive);
    }
  }

  /** Where the first child has no `prev`, merging in one new member leaves the object as it is. */
  lemma NewMemberIsLost(ms: seq<Keyed<Tree>>, k: Text, v: Value, caseSensitive: bool)
    requires ms != [] && FindKey(ms, 0, k, caseSensitive) == None && !v.Null? && !v.Object?
    ensures var target, patch := Group(ms, Nothing), Object([Keyed(k, v)]);
            MergedTree(Some(target), patch, caseSensitive) == Some(target)
            && MergedMembers(PlainMembers(ms), [Keyed(k, v)], caseSensitive) == PlainMembers(ms) + [Keyed(k, v)]
  {
    hide FindKey, Plain, Fresh;
    var p := Keyed(k, v);
    SameKeyFound(ms, 0, k, caseSensitive);
    assert MergedOne(ms, Nothing, p, caseSensitive) == Effect(0, Group(ms, Nothing));
    assert MergedFrom(ms, Nothing, [], caseSensitive) == Some(Group(ms, Nothing));
    assert [p][1..] == [];
    assert MergedMember(PlainMembers(ms), p, caseSensitive) == PlainMembers(ms) + [p];
    assert MergedMembers(PlainMembers(ms) + [p], [], caseSensitive) == PlainMembers(ms) + [p];
  }
}
