/** Which documents take the patches that have been generated from them, in spite of what generating does to their
    links. */
module PatchFit {
  import opened Bytes
  import opened Json
  import opened KeyedSort
  import opened ListTail
  import opened JsonCompare
  import opened LinkedTree

  /** A single patch replaces the whole of it. */
  predicate Replaces(from: Value, to: Value) {
    !SameType(from, to) || (from.Number? && from.n != to.n) || (from.Str? && from.s != to.s)
  }

  /** The two lists have this member in common, and what is below it is patched. */
  predicate Shared(x: Keyed<Tree>, y: Keyed<Tree>) {
    x.key == y.key && !Replaces(Plain(x.value), Plain(y.value))
  }

  /** Member number `j` of the later object is added by a patch: it is new or replaced. */
  predicate Appears(a: seq<Keyed<Tree>>, b: seq<Keyed<Tree>>, j: nat)
    requires j < |b|
  {
    forall i :: 0 <= i < |a| ==> !Shared(a[i], b[j])
  }

  /** Member number `i` of the earlier object is taken out by a patch. */
  predicate Vanishes(a: seq<Keyed<Tree>>, b: seq<Keyed<Tree>>, i: nat)
    requires i < |a|
  {
    forall j :: 0 <= j < |b| ==> !Shared(a[i], b[j])
  }

  /** Nothing is added before the last of the earlier members has been taken out, which repairs the links. */
  predicate AddedBehind(a: seq<Keyed<Tree>>, b: seq<Keyed<Tree>>, caseSensitive: bool) {
    forall j :: 0 <= j < |b| && Appears(a, b, j) ==>
      && a != [] && Vanishes(a, b, |a| - 1)
      && CompareStrings(a[|a| - 1].key, b[j].key, caseSensitive) <= 0
  }

  /** In every object that generating reaches, sorting has left the links right, or nothing is added before the last
      member in the order of names is taken out. */
  predicate Fits(a: Tree, b: Tree, caseSensitive: bool)
    decreases a
  {
    Replaces(Plain(a), Plain(b)) ||
    match a
    case Leaf(_) => true
    case List(items) =>
      forall i :: 0 <= i < |items| && i < |b.items| ==> Fits(items[i], b.items[i], caseSensitive)
    case Group(ms, tail) =>
      ArrangedInside(ms, tail, caseSensitive);
      var (from, fromTail) := Arranged(ms, tail, caseSensitive);
      var (to, _) := Arranged(b.members, b.tail, caseSensitive);
      && (Right(fromTail, |from|) || AddedBehind(from, to, caseSensitive))
      && forall i, j :: 0 <= i < |from| && 0 <= j < |to| && Shared(from[i], to[j]) ==>
           Fits(from[i].value, to[j].value, caseSensitive)
  }

  /** The same along the walk, for the rest of the members, when the links are right or not. */
  predicate FitsWalk(a: seq<Keyed<Tree>>, b: seq<Keyed<Tree>>, right: bool, caseSensitive: bool)
    decreases |a| + |b|
  {
    if a == [] && b == [] then true else
    var diff := if a == [] then 1 else if b == [] then -1 else CompareStrings(a[0].key, b[0].key, caseSensitive);
    if diff == 0 then
      if Replaces(Plain(a[0].value), Plain(b[0].value)) then
        (right || |a| == 1) && FitsWalk(a[1..], b[1..], true, caseSensitive)
      else Fits(a[0].value, b[0].value, caseSensitive) && FitsWalk(a[1..], b[1..], right, caseSensitive)
    else if diff < 0 then FitsWalk(a[1..], b, right || |a| == 1, caseSensitive)
    else right && FitsWalk(a, b[1..], true, caseSensitive)
  }

  ghost predicate Strict(ms: seq<Keyed<Tree>>, caseSensitive: bool) {
    forall i, j :: 0 <= i < j < |ms| ==> CompareStrings(ms[i].key, ms[j].key, caseSensitive) < 0
  }

  predicate SharedFit(a: seq<Keyed<Tree>>, b: seq<Keyed<Tree>>, caseSensitive: bool) {
    forall i, j :: 0 <= i < |a| && 0 <= j < |b| && Shared(a[i], b[j]) ==>
      Fits(a[i].value, b[j].value, caseSensitive)
  }

  /** Comparing names of these lists tells equal ones. */
  ghost predicate Telling(a: seq<Keyed<Tree>>, b: seq<Keyed<Tree>>, caseSensitive: bool) {
    forall i, j :: 0 <= i < |a| && 0 <= j < |b| ==>
      (CompareStrings(a[i].key, b[j].key, caseSensitive) == 0 <==> a[i].key == b[j].key)
  }

  lemma CompareThrough(x: Text, y: Text, z: Text, caseSensitive: bool)
    ensures CompareStrings(x, y, caseSensitive) <= 0 && CompareStrings(y, z, caseSensitive) <= 0 ==>
              && CompareStrings(x, z, caseSensitive) <= 0
              && (CompareStrings(x, y, caseSensitive) < 0 || CompareStrings(y, z, caseSensitive) < 0 ==>
                    CompareStrings(x, z, caseSensitive) < 0)
    ensures CompareStrings(x, y, caseSensitive) > 0 <==> CompareStrings(y, x, caseSensitive) < 0
  {
    var a, b: Keyed<nat>, c: Keyed<nat> := Keyed(x, 0), Keyed(y, 0), Keyed(z, 0);
    if Compare(a, b, caseSensitive) <= 0 && Compare(b, c, caseSensitive) <= 0 {
      CompareTransitive(a, b, c, caseSensitive);
    }
    StrCmpAntisymmetric(Fold(x, caseSensitive), Fold(y, caseSensitive));
    StrCmpAntisymmetric(Fold(y, caseSensitive), Fold(x, caseSensitive));
  }

  /** A name in front of the first one of a list, or equal to it, is in front of the others. */
  lemma InFront(x: Text, ms: seq<Keyed<Tree>>, caseSensitive: bool)
    requires ms != [] && Strict(ms, caseSensitive) && CompareStrings(x, ms[0].key, caseSensitive) <= 0
    ensures forall j :: 0 < j < |ms| ==> CompareStrings(x, ms[j].key, caseSensitive) < 0
    ensures forall j :: 0 <= j < |ms| ==> CompareStrings(x, ms[j].key, caseSensitive) <= 0
    ensures forall j :: 0 < j < |ms| ==> CompareStrings(ms[j].key, x, caseSensitive) > 0
    ensures CompareStrings(x, ms[0].key, caseSensitive) < 0 ==> CompareStrings(ms[0].key, x, caseSensitive) > 0
  {
    hide CompareStrings;
    forall j | 0 <= j < |ms|
      ensures CompareStrings(x, ms[j].key, caseSensitive) <= 0
      ensures j > 0 ==> CompareStrings(x, ms[j].key, caseSensitive) < 0 < CompareStrings(ms[j].key, x, caseSensitive)
    {
      CompareThrough(x, ms[0].key, ms[j].key, caseSensitive);
      CompareThrough(ms[j].key, x, x, caseSensitive);
    }
    CompareThrough(ms[0].key, x, x, caseSensitive);
  }

  /** The first of the earlier members has no counterpart. */
  lemma FirstVanishes(a: seq<Keyed<Tree>>, b: seq<Keyed<Tree>>, caseSensitive: bool)
    requires a != [] && forall j :: 0 <= j < |b| ==> !Shared(a[0], b[j])
    ensures SharedFit(a, b, caseSensitive) <==> SharedFit(a[1..], b, caseSensitive)
    ensures |a| > 1 ==> (AddedBehind(a, b, caseSensitive) <==> AddedBehind(a[1..], b, caseSensitive))
    ensures |a| == 1 && (forall j :: 0 <= j < |b| ==> CompareStrings(a[0].key, b[j].key, caseSensitive) <= 0) ==>
              AddedBehind(a, b, caseSensitive)
  {
    hide Fits, CompareStrings, Shared;
    var rest := a[1..];
    assert forall i :: 0 <= i < |rest| ==> rest[i] == a[i + 1];
    forall i, j | 0 <= i < |a| && 0 <= j < |b| && Shared(a[i], b[j]) ensures i > 0 && rest[i - 1] == a[i] {}
    forall j | 0 <= j < |b| ensures Appears(a, b, j) <==> Appears(rest, b, j) {
      if !Appears(a, b, j) {
        var i :| 0 <= i < |a| && Shared(a[i], b[j]);
        assert rest[i - 1] == a[i];
      }
    }
    if |a| > 1 {
      assert Vanishes(a, b, |a| - 1) <==> Vanishes(rest, b, |rest| - 1);
    }
  }

  /** The first of the later members has no counterpart. */
  lemma FirstAppears(a: seq<Keyed<Tree>>, b: seq<Keyed<Tree>>, caseSensitive: bool)
    requires b != [] && forall i :: 0 <= i < |a| ==> !Shared(a[i], b[0])
    ensures SharedFit(a, b, caseSensitive) <==> SharedFit(a, b[1..], caseSensitive)
    ensures a == [] || CompareStrings(a[|a| - 1].key, b[0].key, caseSensitive) > 0 ==> !AddedBehind(a, b, caseSensitive)
  {
    hide Fits, CompareStrings, Shared;
    var rest := b[1..];
    assert forall j :: 0 <= j < |rest| ==> rest[j] == b[j + 1];
    forall i, j | 0 <= i < |a| && 0 <= j < |b| && Shared(a[i], b[j]) ensures j > 0 && rest[j - 1] == b[j] {}
    assert Appears(a, b, 0);
  }

  /** The first members are the same one. */
  lemma FirstShared(a: seq<Keyed<Tree>>, b: seq<Keyed<Tree>>, caseSensitive: bool)
    requires a != [] && b != [] && Shared(a[0], b[0])
    requires forall j :: 0 < j < |b| ==> !Shared(a[0], b[j])
    requires forall i :: 0 < i < |a| ==> !Shared(a[i], b[0])
    ensures SharedFit(a, b, caseSensitive)
       <==> Fits(a[0].value, b[0].value, caseSensitive) && SharedFit(a[1..], b[1..], caseSensitive)
    ensures AddedBehind(a, b, caseSensitive) <==> AddedBehind(a[1..], b[1..], caseSensitive)
  {
    hide Fits, CompareStrings, Shared;
    var ra, rb := a[1..], b[1..];
    assert (forall i :: 0 <= i < |ra| ==> ra[i] == a[i + 1]) && forall j :: 0 <= j < |rb| ==> rb[j] == b[j + 1];
    forall i, j | 0 < i < |a| && 0 < j < |b| ensures ra[i - 1] == a[i] && rb[j - 1] == b[j] {}
    assert !Appears(a, b, 0);
    forall j | 0 < j < |b| ensures Appears(a, b, j) <==> Appears(ra, rb, j - 1) {
      if !Appears(a, b, j) {
        var i :| 0 <= i < |a| && Shared(a[i], b[j]);
        assert ra[i - 1] == a[i];
      }
    }
    if |a| > 1 {
      LastVanishes(a, b);
    } else {
      assert !Vanishes(a, b, 0);
      assert forall j :: 0 <= j < |rb| ==> Appears(ra, rb, j);
    }
  }

  lemma LastVanishes(a: seq<Keyed<Tree>>, b: seq<Keyed<Tree>>)
    requires |a| > 1 && b != [] && !Shared(a[|a| - 1], b[0])
    ensures Vanishes(a, b, |a| - 1) <==> Vanishes(a[1..], b[1..], |a| - 2)
  {
    hide Shared;
    var bs := b[1..];
    assert a[1..][|a| - 2] == a[|a| - 1] && forall j :: 0 < j < |b| ==> bs[j - 1] == b[j];
  }

  lemma TailStrict(a: seq<Keyed<Tree>>, b: seq<Keyed<Tree>>, caseSensitive: bool)
    requires Strict(a, caseSensitive) && Strict(b, caseSensitive) && Telling(a, b, caseSensitive)
    ensures a != [] ==> Strict(a[1..], caseSensitive) && Telling(a[1..], b, caseSensitive)
    ensures b != [] ==> Strict(b[1..], caseSensitive) && Telling(a, b[1..], caseSensitive)
    ensures a != [] && b != [] ==> Telling(a[1..], b[1..], caseSensitive)
  {
    hide CompareStrings;
  }

  /** The walk decides just that. */
  lemma {:induction false} WalkIsFit(a: seq<Keyed<Tree>>, b: seq<Keyed<Tree>>, right: bool, caseSensitive: bool)
    requires Strict(a, caseSensitive) && Strict(b, caseSensitive) && Telling(a, b, caseSensitive)
    ensures FitsWalk(a, b, right, caseSensitive)
       <==> SharedFit(a, b, caseSensitive) && (right || AddedBehind(a, b, caseSensitive))
    decreases |a| + |b|
  {
    hide Fits, CompareStrings, SharedFit, AddedBehind, Strict, Telling, Replaces;
    TailStrict(a, b, caseSensitive);
    if a == [] && b == [] {
      NothingShared(a, b, caseSensitive);
    } else if a == [] {
      NothingShared(a, b, caseSensitive);
      FirstAppears(a, b, caseSensitive);
      WalkIsFit(a, b[1..], true, caseSensitive);
    } else if b == [] {
      NothingShared(a, b, caseSensitive);
      NothingShared(a[1..], b, caseSensitive);
      WalkIsFit(a[1..], b, right || |a| == 1, caseSensitive);
    } else {
      var diff := CompareStrings(a[0].key, b[0].key, caseSensitive);
      if diff < 0 {
        NoneInFront(a, b, caseSensitive);
        FirstVanishes(a, b, caseSensitive);
        WalkIsFit(a[1..], b, right || |a| == 1, caseSensitive);
      } else if diff > 0 {
        NoneBehind(a, b, caseSensitive);
        FirstAppears(a, b, caseSensitive);
        WalkIsFit(a, b[1..], true, caseSensitive);
      } else {
        OnlyFirstShared(a, b, caseSensitive);
        if Replaces(Plain(a[0].value), Plain(b[0].value)) {
          FirstVanishes(a, b, caseSensitive);
          FirstAppears(a[1..], b, caseSensitive);
          LastIsBehind(a, b, caseSensitive);
          WalkIsFit(a[1..], b[1..], true, caseSensitive);
        } else {
          FirstShared(a, b, caseSensitive);
          WalkIsFit(a[1..], b[1..], right, caseSensitive);
        }
      }
    }
  }

  lemma NothingShared(a: seq<Keyed<Tree>>, b: seq<Keyed<Tree>>, caseSensitive: bool)
    requires a == [] || b == []
    ensures SharedFit(a, b, caseSensitive) && (b == [] ==> AddedBehind(a, b, caseSensitive))
  {}

  lemma NoneInFront(a: seq<Keyed<Tree>>, b: seq<Keyed<Tree>>, caseSensitive: bool)
    requires a != [] && b != [] && Strict(b, caseSensitive) && Telling(a, b, caseSensitive)
    requires CompareStrings(a[0].key, b[0].key, caseSensitive) < 0
    ensures forall j :: 0 <= j < |b| ==> !Shared(a[0], b[j])
    ensures forall j :: 0 <= j < |b| ==> CompareStrings(a[0].key, b[j].key, caseSensitive) <= 0
  {
    hide CompareStrings, Replaces;
    InFront(a[0].key, b, caseSensitive);
  }

  lemma NoneBehind(a: seq<Keyed<Tree>>, b: seq<Keyed<Tree>>, caseSensitive: bool)
    requires a != [] && b != [] && Strict(a, caseSensitive) && Telling(a, b, caseSensitive)
    requires CompareStrings(a[0].key, b[0].key, caseSensitive) > 0
    ensures forall i :: 0 <= i < |a| ==> !Shared(a[i], b[0])
    ensures CompareStrings(a[|a| - 1].key, b[0].key, caseSensitive) > 0
  {
    hide CompareStrings, Replaces;
    CompareThrough(a[0].key, b[0].key, b[0].key, caseSensitive);
    InFront(b[0].key, a, caseSensitive);
    forall i | 0 <= i < |a| ensures CompareStrings(a[i].key, b[0].key, caseSensitive) > 0 {}
  }

  lemma OnlyFirstShared(a: seq<Keyed<Tree>>, b: seq<Keyed<Tree>>, caseSensitive: bool)
    requires a != [] && b != [] && Strict(a, caseSensitive) && Strict(b, caseSensitive) && Telling(a, b, caseSensitive)
    requires CompareStrings(a[0].key, b[0].key, caseSensitive) == 0
    ensures a[0].key == b[0].key
    ensures forall j :: 0 < j < |b| ==> !Shared(a[0], b[j])
    ensures forall i :: 0 < i < |a| ==> !Shared(a[i], b[0])
    ensures forall j :: 0 <= j < |b| ==> CompareStrings(a[0].key, b[j].key, caseSensitive) <= 0
  {
    hide CompareStrings, Replaces;
    InFront(a[0].key, b, caseSensitive);
    InFront(b[0].key, a, caseSensitive);
  }

  /** If the first members are one that is replaced, and there are more, the last one is behind it. */
  lemma LastIsBehind(a: seq<Keyed<Tree>>, b: seq<Keyed<Tree>>, caseSensitive: bool)
    requires a != [] && b != [] && Strict(a, caseSensitive) && Telling(a, b, caseSensitive)
    requires CompareStrings(a[0].key, b[0].key, caseSensitive) == 0
    ensures |a| > 1 ==> CompareStrings(a[1..][|a| - 2].key, b[0].key, caseSensitive) > 0
  {
    hide CompareStrings;
    if |a| > 1 {
      InFront(b[0].key, a, caseSensitive);
    }
  }
}
