/** Documents with what their objects' first children say about the last ones: `compare_json` sorts the members of
    both of its arguments in place, and that changes it. */
module LinkedTree {
  import opened Bytes
  import opened Json
  import opened JsonPointer
  import opened KeyedSort
  import opened ListTail
  import opened JsonNormal
  import opened JsonCompare

  /** Values without children. */
  type Scalar = v: Value | !v.Array? && !v.Object? witness Null

  /** A document whose objects carry the `prev` of their first child. Arrays are not sorted, so theirs is always
      right. */
  datatype Tree =
    | Leaf(value: Scalar)
    | List(items: seq<Tree>)
    | Group(members: seq<Keyed<Tree>>, tail: Tail)

  /** The document without the links. */
  function Plain(t: Tree): Value
    decreases t, 1
  {
    match t
    case Leaf(v) => v
    case List(items) => Array(PlainItems(items))
    case Group(ms, _) => Object(PlainMembers(ms))
  }

  function PlainItems(items: seq<Tree>): (r: seq<Value>)
    ensures |r| == |items| && forall i :: 0 <= i < |r| ==> r[i] == Plain(items[i])
    decreases items, 0
  {
    seq(|items|, i requires 0 <= i < |items| => Plain(items[i]))
  }

  function PlainMembers(ms: seq<Keyed<Tree>>): (r: seq<Keyed<Value>>)
    ensures |r| == |ms| && forall i :: 0 <= i < |r| ==> r[i] == Keyed(ms[i].key, Plain(ms[i].value))
    decreases ms, 0
  {
    seq(|ms|, i requires 0 <= i < |ms| => Keyed(ms[i].key, Plain(ms[i].value)))
  }

  /** All links are right. */
  predicate Sound(t: Tree) {
    match t
    case Leaf(_) => true
    case List(items) => forall i :: 0 <= i < |items| ==> Sound(items[i])
    case Group(ms, tail) => Right(tail, |ms|) && forall i :: 0 <= i < |ms| ==> Sound(ms[i].value)
  }

  /** A document that has just been parsed, built or duplicated. */
  function Fresh(v: Value): (t: Tree)
    ensures Plain(t) == v && Sound(t)
    decreases v
  {
    match v
    case Array(items) =>
      var ts := seq(|items|, i requires 0 <= i < |items| => Fresh(items[i]));
      assert PlainItems(ts) == items;
      List(ts)
    case Object(ms) =>
      var ts := seq(|ms|, i requires 0 <= i < |ms| => Keyed(ms[i].key, Fresh(ms[i].value)));
      assert PlainMembers(ts) == ms;
      Group(ts, if ms == [] then Nothing else At(|ms| - 1))
    case _ => Leaf(v)
  }

  // ---------------------------------------------------------------------------------------------
  // Positions
  // ---------------------------------------------------------------------------------------------

  function TreeChild(t: Tree, i: nat): (c: Tree)
    requires i < Children(Plain(t))
    ensures c < t && Plain(c) == Child(Plain(t), i)
  {
    match t
    case List(items) => items[i]
    case Group(ms, _) => ms[i].value
  }

  function WithTreeChild(t: Tree, i: nat, w: Tree): (r: Tree)
    requires i < Children(Plain(t))
    ensures Plain(r) == WithChild(Plain(t), i, Plain(w))
  {
    match t
    case List(items) =>
      assert PlainItems(items[i := w]) == PlainItems(items)[i := Plain(w)];
      List(items[i := w])
    case Group(ms, tail) =>
      assert PlainMembers(ms[i := Keyed(ms[i].key, w)]) == PlainMembers(ms)[i := Keyed(ms[i].key, Plain(w))];
      Group(ms[i := Keyed(ms[i].key, w)], tail)
  }

  function GetTree(t: Tree, path: Path): (r: Tree)
    requires ValidPath(Plain(t), path)
    ensures Plain(r) == GetAt(Plain(t), path)
  {
    if path == [] then t else GetTree(TreeChild(t, path[0]), path[1..])
  }

  /** Changing a node in place: the links of the nodes above stay as they are. */
  function SetTree(t: Tree, path: Path, w: Tree): (r: Tree)
    requires ValidPath(Plain(t), path)
    ensures Plain(r) == SetAt(Plain(t), path, Plain(w))
  {
    if path == [] then w else WithTreeChild(t, path[0], SetTree(TreeChild(t, path[0]), path[1..], w))
  }

  lemma {:induction false} SoundBelow(t: Tree, path: Path, w: Tree)
    requires Sound(t) && ValidPath(Plain(t), path)
    ensures Sound(GetTree(t, path))
    ensures Sound(w) ==> Sound(SetTree(t, path, w))
    decreases |path|
  {
    if path != [] {
      SoundBelow(TreeChild(t, path[0]), path[1..], w);
    }
  }

  // ---------------------------------------------------------------------------------------------
  // Comparing
  // ---------------------------------------------------------------------------------------------

  /** `sort_object`. */
  function Arranged(ms: seq<Keyed<Tree>>, tail: Tail, caseSensitive: bool): (seq<Keyed<Tree>>, Tail) {
    (Sort(ms, caseSensitive), AfterSort(tail, Order(Keys(ms), caseSensitive)))
  }

  ghost predicate TreesInside(ms: seq<Keyed<Tree>>, t: Tree) {
    forall m :: m in ms ==> m.value < t
  }

  lemma ArrangedInside(ms: seq<Keyed<Tree>>, tail: Tail, caseSensitive: bool)
    ensures TreesInside(Sort(ms, caseSensitive), Group(ms, tail))
  {
    SortPermutes(ms, caseSensitive);
    forall m | m in Sort(ms, caseSensitive) ensures m.value < Group(ms, tail) {
      assert m in multiset(Sort(ms, caseSensitive));
      var i :| 0 <= i < |ms| && ms[i] == m;
      assert ms[i].value < Group(ms, tail);
    }
  }

  /** The result of a comparison, and what it has made of its arguments. */
  datatype Outcome<T> = Outcome(same: bool, a: T, b: T)

  /** `compare_json`: objects are sorted when they are reached, and the comparison stops at the first difference. */
  function Compared(a: Tree, b: Tree, caseSensitive: bool): Outcome<Tree>
    decreases a, 1, 0
  {
    if !SameType(Plain(a), Plain(b)) then Outcome(false, a, b) else
    match a
    case Leaf(v) => Outcome(Same(v, b.value, caseSensitive), a, b)
    case List(items) =>
      var r := ComparedItems(items, b.items, caseSensitive);
      Outcome(r.same, List(r.a), List(r.b))
    case Group(ms, tail) =>
      ArrangedInside(ms, tail, caseSensitive);
      var (from, fromTail) := Arranged(ms, tail, caseSensitive);
      var (other, otherTail) := Arranged(b.members, b.tail, caseSensitive);
      var r := ComparedMembers(from, other, caseSensitive, a);
      Outcome(r.same, Group(r.a, fromTail), Group(r.b, otherTail))
  }

  function ComparedItems(a: seq<Tree>, b: seq<Tree>, caseSensitive: bool): (r: Outcome<seq<Tree>>)
    ensures |r.a| == |a| && |r.b| == |b|
    decreases a
  {
    if a == [] || b == [] then Outcome(a == [] && b == [], a, b) else
    var first := Compared(a[0], b[0], caseSensitive);
    var rest := if first.same then ComparedItems(a[1..], b[1..], caseSensitive) else Outcome(false, a[1..], b[1..]);
    Outcome(rest.same, [first.a] + rest.a, [first.b] + rest.b)
  }

  function ComparedMembers(a: seq<Keyed<Tree>>, b: seq<Keyed<Tree>>, caseSensitive: bool, ghost t: Tree)
    : (r: Outcome<seq<Keyed<Tree>>>)
    requires TreesInside(a, t)
    ensures |r.a| == |a| && |r.b| == |b|
    decreases t, 0, |a|
  {
    if a == [] || b == [] then Outcome(a == [] && b == [], a, b)
    else if CompareStrings(a[0].key, b[0].key, caseSensitive) != 0 then Outcome(false, a, b)
    else
      var first := Compared(a[0].value, b[0].value, caseSensitive);
      var rest := if first.same then ComparedMembers(a[1..], b[1..], caseSensitive, t)
                  else Outcome(false, a[1..], b[1..]);
      Outcome(rest.same, [Keyed(a[0].key, first.a)] + rest.a, [Keyed(b[0].key, first.b)] + rest.b)
  }

  /** What a comparison that has come to number `i` still makes of the two lists. */
  function WithFront<T>(a: seq<T>, b: seq<T>, i: nat, rest: Outcome<seq<T>>): Outcome<seq<T>>
    requires i <= |a| && i <= |b|
  {
    Outcome(rest.same, a[..i] + rest.a, b[..i] + rest.b)
  }

  lemma FrontOnly<T>(a: seq<T>, b: seq<T>, i: nat, same: bool, rest: Outcome<seq<T>>)
    requires i <= |a| && i <= |b|
    ensures WithFront(a, b, i, Outcome(same, a[i..], b[i..])) == Outcome(same, a, b)
    ensures WithFront(a, b, 0, rest) == rest
  {
    assert a[..i] + a[i..] == a && b[..i] + b[i..] == b;
    assert a[..0] + rest.a == rest.a && b[..0] + rest.b == rest.b;
  }

  lemma FrontGrows<T>(a: seq<T>, b: seq<T>, i: nat, x: T, y: T, rest: Outcome<seq<T>>)
    requires i < |a| && i < |b|
    ensures WithFront(a, b, i, Outcome(rest.same, [x] + rest.a, [y] + rest.b))
         == WithFront(a[i := x], b[i := y], i + 1, rest)
    ensures a[i := x][i + 1..] == a[i + 1..] && b[i := y][i + 1..] == b[i + 1..]
  {
    assert a[i := x][..i + 1] == a[..i] + [x] && b[i := y][..i + 1] == b[..i] + [y];
    assert a[..i] + [x] + rest.a == a[..i] + ([x] + rest.a);
    assert b[..i] + [y] + rest.b == b[..i] + ([y] + rest.b);
  }

  method CompareJson(a: Tree, b: Tree, caseSensitive: bool) returns (r: Outcome<Tree>)
    ensures r == Compared(a, b, caseSensitive)
    decreases a, 1, 0
  {
    if !SameType(Plain(a), Plain(b)) {
      return Outcome(false, a, b);
    }
    match a {
      case Leaf(v) =>
        r := Outcome(Same(v, b.value, caseSensitive), a, b);
      case List(items) =>
        var items := CompareItems(items, b.items, caseSensitive);
        r := Outcome(items.same, List(items.a), List(items.b));
      case Group(ms, tail) =>
        ArrangedInside(ms, tail, caseSensitive);
        var (from, fromTail) := Arranged(ms, tail, caseSensitive);
        var (other, otherTail) := Arranged(b.members, b.tail, caseSensitive);
        var members := CompareMembers(from, other, caseSensitive, a);
        r := Outcome(members.same, Group(members.a, fromTail), Group(members.b, otherTail));
    }
  }

  method CompareItems(a: seq<Tree>, b: seq<Tree>, caseSensitive: bool) returns (r: Outcome<seq<Tree>>)
    ensures r == ComparedItems(a, b, caseSensitive)
    decreases a
  {
    hide Compared, WithFront;
    ghost var goal := ComparedItems(a, b, caseSensitive);
    FrontOnly(a, b, 0, true, goal);
    assert a[0..] == a && b[0..] == b;
    var i, from, other := 0, a, b;
    while i < |a| && i < |b|
      invariant 0 <= i <= |a| && i <= |b| && |from| == |a| && |other| == |b| && from[i..] == a[i..]
      invariant other[i..] == b[i..]
      invariant goal == WithFront(from, other, i, ComparedItems(a[i..], b[i..], caseSensitive))
    {
      SameFront(a, from, i);
      SameFront(b, other, i);
      var first := CompareJson(from[i], other[i], caseSensitive);
      ghost var rest := if first.same then ComparedItems(a[i + 1..], b[i + 1..], caseSensitive)
                        else Outcome(false, a[i + 1..], b[i + 1..]);
      FrontGrows(from, other, i, first.a, first.b, rest);
      from, other := from[i := first.a], other[i := first.b];
      i := i + 1;
      if !first.same {
        FrontOnly(from, other, i, false, rest);
        return Outcome(false, from, other);
      }
    }
    FrontOnly(from, other, i, i == |a| && i == |b|, goal);
    r := Outcome(i == |a| && i == |b|, from, other);
  }

  lemma SameFront<T>(a: seq<T>, from: seq<T>, i: nat)
    requires i < |a| == |from| && from[i..] == a[i..]
    ensures from[i] == a[i] == a[i..][0] && a[i..][1..] == a[i + 1..] == from[i + 1..]
  {
    assert from[i..][0] == from[i] && from[i..][1..] == from[i + 1..];
  }

  lemma MembersUnfold(a: seq<Keyed<Tree>>, b: seq<Keyed<Tree>>, i: nat, caseSensitive: bool, t: Tree)
    requires TreesInside(a, t) && i < |a| && i < |b|
    ensures a[i].value < t && TreesInside(a[i..], t) && TreesInside(a[i + 1..], t)
    ensures var first, all := Compared(a[i].value, b[i].value, caseSensitive),
                              ComparedMembers(a[i..], b[i..], caseSensitive, t);
            var rest := if first.same then ComparedMembers(a[i + 1..], b[i + 1..], caseSensitive, t)
                        else Outcome(false, a[i + 1..], b[i + 1..]);
            if CompareStrings(a[i].key, b[i].key, caseSensitive) != 0 then all == Outcome(false, a[i..], b[i..])
            else
              all == Outcome(rest.same, [Keyed(a[i].key, first.a)] + rest.a, [Keyed(b[i].key, first.b)] + rest.b)
  {
    hide Compared, CompareStrings;
    assert a[i] in a;
    assert a[i..][0] == a[i] && b[i..][0] == b[i] && a[i..][1..] == a[i + 1..] && b[i..][1..] == b[i + 1..];
  }

  method CompareMembers(a: seq<Keyed<Tree>>, b: seq<Keyed<Tree>>, caseSensitive: bool, ghost t: Tree)
    returns (r: Outcome<seq<Keyed<Tree>>>)
    requires TreesInside(a, t)
    ensures r == ComparedMembers(a, b, caseSensitive, t)
    decreases t, 0
  {
    hide Compared, CompareStrings, WithFront, ComparedMembers, TreesInside;
    ghost var goal := ComparedMembers(a, b, caseSensitive, t);
    FrontOnly(a, b, 0, true, goal);
    assert a[0..] == a && b[0..] == b;
    var i, from, other := 0, a, b;
    while i < |a| && i < |b|
      invariant 0 <= i <= |a| && i <= |b| && |from| == |a| && |other| == |b|
      invariant from[i..] == a[i..] && other[i..] == b[i..] && TreesInside(a[i..], t)
      invariant goal == WithFront(from, other, i, ComparedMembers(a[i..], b[i..], caseSensitive, t))
    {
      SameFront(a, from, i);
      SameFront(b, other, i);
      MembersUnfold(a, b, i, caseSensitive, t);
      if CompareStrings(from[i].key, other[i].key, caseSensitive) != 0 {
        FrontOnly(from, other, i, false, goal);
        return Outcome(false, from, other);
      }
      var first := CompareJson(from[i].value, other[i].value, caseSensitive);
      ghost var rest := if first.same then ComparedMembers(a[i + 1..], b[i + 1..], caseSensitive, t)
                        else Outcome(false, a[i + 1..], b[i + 1..]);
      FrontGrows(from, other, i, Keyed(a[i].key, first.a), Keyed(b[i].key, first.b), rest);
      from, other := from[i := Keyed(from[i].key, first.a)], other[i := Keyed(other[i].key, first.b)];
      i := i + 1;
      if !first.same {
        FrontOnly(from, other, i, false, rest);
        return Outcome(false, from, other);
      }
    }
    MembersEnd(a, b, i, caseSensitive, t);
    FrontOnly(from, other, i, i == |a| && i == |b|, goal);
    r := Outcome(i == |a| && i == |b|, from, other);
  }

  lemma MembersEnd(a: seq<Keyed<Tree>>, b: seq<Keyed<Tree>>, i: nat, caseSensitive: bool, t: Tree)
    requires i <= |a| && i <= |b| && (i == |a| || i == |b|) && TreesInside(a[i..], t)
    ensures ComparedMembers(a[i..], b[i..], caseSensitive, t) == Outcome(i == |a| && i == |b|, a[i..], b[i..])
  {}

  // ---------------------------------------------------------------------------------------------
  // What a comparison decides, and what it keeps
  // ---------------------------------------------------------------------------------------------

  lemma PlainSorted(ms: seq<Keyed<Tree>>, caseSensitive: bool)
    ensures PlainMembers(Sort(ms, caseSensitive)) == Sort(PlainMembers(ms), caseSensitive)
  {
    var f := (t: Tree) => Plain(t);
    SortMapped(ms, f, caseSensitive);
    assert Mapped(ms, f) == PlainMembers(ms);
    assert Mapped(Sort(ms, caseSensitive), f) == PlainMembers(Sort(ms, caseSensitive));
  }

  lemma {:induction false} ComparedIsSame(a: Tree, b: Tree, caseSensitive: bool)
    ensures Compared(a, b, caseSensitive).same == Same(Plain(a), Plain(b), caseSensitive)
    decreases a, 1, 0
  {
    hide Sort, ComparedMembers, SameMembers, ComparedItems, SameItems, Order;
    if SameType(Plain(a), Plain(b)) {
      match a {
        case Leaf(_) =>
        case List(items) =>
          ComparedItemsAreSame(items, b.items, caseSensitive);
        case Group(ms, tail) =>
          ArrangedInside(ms, tail, caseSensitive);
          PlainSorted(ms, caseSensitive);
          PlainSorted(b.members, caseSensitive);
          SortedInside(PlainMembers(ms), caseSensitive);
          ComparedMembersAreSame(Sort(ms, caseSensitive), Sort(b.members, caseSensitive), caseSensitive, a, Plain(a));
      }
    }
  }

  lemma {:induction false} ComparedItemsAreSame(a: seq<Tree>, b: seq<Tree>, caseSensitive: bool)
    ensures ComparedItems(a, b, caseSensitive).same == SameItems(PlainItems(a), PlainItems(b), caseSensitive)
    decreases a
  {
    hide Compared, Same;
    if a != [] && b != [] {
      ComparedIsSame(a[0], b[0], caseSensitive);
      ComparedItemsAreSame(a[1..], b[1..], caseSensitive);
      assert PlainItems(a)[1..] == PlainItems(a[1..]) && PlainItems(b)[1..] == PlainItems(b[1..]);
    }
  }

  lemma {:induction false} ComparedMembersAreSame(a: seq<Keyed<Tree>>, b: seq<Keyed<Tree>>, caseSensitive: bool,
                                                  t: Tree, v: Value)
    requires TreesInside(a, t) && Inside(PlainMembers(a), v)
    ensures ComparedMembers(a, b, caseSensitive, t).same
         == SameMembers(PlainMembers(a), PlainMembers(b), caseSensitive, v)
    decreases t, 0, |a|
  {
    hide Compared, Same, CompareStrings;
    if a != [] && b != [] {
      var pa, pb := PlainMembers(a), PlainMembers(b);
      assert pa[1..] == PlainMembers(a[1..]) && pb[1..] == PlainMembers(b[1..]);
      assert Inside(pa[1..], v);
      ComparedIsSame(a[0].value, b[0].value, caseSensitive);
      ComparedMembersAreSame(a[1..], b[1..], caseSensitive, t, v);
    }
  }

  /** A document over these names is, up to member order, still the same. */
  ghost predicate StillIs(t: Tree, u: Tree, keys: iset<Text>) {
    Fine(Plain(t), keys) ==> Norm(Plain(u)) == Norm(Plain(t)) && Fine(Plain(u), keys)
  }

  ghost predicate ItemsStill(a: seq<Tree>, b: seq<Tree>, keys: iset<Text>) {
    |a| == |b| && forall i :: 0 <= i < |a| ==> StillIs(a[i], b[i], keys)
  }

  ghost predicate MembersStill(a: seq<Keyed<Tree>>, b: seq<Keyed<Tree>>, keys: iset<Text>) {
    |a| == |b| && forall i :: 0 <= i < |a| ==> a[i].key == b[i].key && StillIs(a[i].value, b[i].value, keys)
  }

  lemma ItemsStillConsistent(a: seq<Tree>, b: seq<Tree>, keys: iset<Text>)
    requires ItemsStill(a, b, keys)
    ensures StillIs(List(a), List(b), keys)
  {
    hide Fine, Norm;
    FineArray(PlainItems(a), keys);
    FineArray(PlainItems(b), keys);
    if Fine(Array(PlainItems(a)), keys) {
      forall i | 0 <= i < |a| ensures Norm(PlainItems(b)[i]) == Norm(PlainItems(a)[i]) && Fine(PlainItems(b)[i], keys) {
        assert StillIs(a[i], b[i], keys) && Fine(PlainItems(a)[i], keys);
      }
      assert NormItems(PlainItems(a)) == NormItems(PlainItems(b));
      NormOfArrays(PlainItems(a), PlainItems(b));
    }
  }

  lemma NormOfArrays(a: seq<Value>, b: seq<Value>)
    ensures NormItems(a) == NormItems(b) ==> Norm(Array(a)) == Norm(Array(b))
  {}

  lemma {:induction false} NormOfSameKeys(a: seq<Keyed<Value>>, b: seq<Keyed<Value>>)
    requires |a| == |b| && forall i :: 0 <= i < |a| ==> a[i].key == b[i].key && Norm(a[i].value) == Norm(b[i].value)
    ensures NormMembers(a) == NormMembers(b)
  {
    hide Norm;
    if a != [] {
      NormOfSameKeys(a[1..], b[1..]);
    }
  }

  lemma MembersStillConsistent(a: seq<Keyed<Tree>>, b: seq<Keyed<Tree>>, keys: iset<Text>)
    requires MembersStill(a, b, keys) && FineMembers(PlainMembers(a), keys)
    ensures NormMembers(PlainMembers(b)) == NormMembers(PlainMembers(a)) && FineMembers(PlainMembers(b), keys)
  {
    hide Fine, Norm;
    var pa, pb := PlainMembers(a), PlainMembers(b);
    forall i | 0 <= i < |a|
      ensures pb[i].key == pa[i].key && Norm(pb[i].value) == Norm(pa[i].value) && Fine(pb[i].value, keys)
    {
      assert StillIs(a[i].value, b[i].value, keys) && Fine(pa[i].value, keys);
    }
    NormOfSameKeys(pa, pb);
  }

  lemma GroupStill(ms: seq<Keyed<Tree>>, tail: Tail, r: seq<Keyed<Tree>>, tail': Tail, keys: iset<Text>,
                   caseSensitive: bool)
    requires MembersStill(Sort(ms, caseSensitive), r, keys)
    ensures StillIs(Group(ms, tail), Group(r, tail'), keys)
  {
    hide Fine, Sort, FineMembers, NormMembers, MembersStill;
    var pm := PlainMembers(ms);
    FineObject(pm, keys);
    FineObject(PlainMembers(r), keys);
    if FineMembers(pm, keys) {
      SortKeepsMembers(pm, keys, caseSensitive);
      PlainSorted(ms, caseSensitive);
      MembersStillConsistent(Sort(ms, caseSensitive), r, keys);
    }
  }

  /** A comparison keeps both documents up to member order. */
  lemma {:induction false} ComparedKeeps(a: Tree, b: Tree, keys: iset<Text>, caseSensitive: bool)
    ensures StillIs(a, Compared(a, b, caseSensitive).a, keys) && StillIs(b, Compared(a, b, caseSensitive).b, keys)
    decreases a, 1, 0
  {
    hide StillIs;
    NothingChanged(a, keys);
    NothingChanged(b, keys);
    if SameType(Plain(a), Plain(b)) {
      match a {
        case Leaf(_) =>
        case List(items) =>
          ComparedItemsKeep(items, b.items, keys, caseSensitive);
          var r := ComparedItems(items, b.items, caseSensitive);
          ItemsStillConsistent(items, r.a, keys);
          ItemsStillConsistent(b.items, r.b, keys);
        case Group(ms, tail) =>
          hide Sort, MembersStill;
          ArrangedInside(ms, tail, caseSensitive);
          var (from, fromTail) := Arranged(ms, tail, caseSensitive);
          var (other, otherTail) := Arranged(b.members, b.tail, caseSensitive);
          ComparedMembersKeep(from, other, keys, caseSensitive, a);
          var r := ComparedMembers(from, other, caseSensitive, a);
          GroupStill(ms, tail, r.a, fromTail, keys, caseSensitive);
          GroupStill(b.members, b.tail, r.b, otherTail, keys, caseSensitive);
      }
    }
  }

  lemma NothingChanged(t: Tree, keys: iset<Text>)
    ensures StillIs(t, t, keys)
  {}

  lemma AllUnchanged(a: seq<Tree>, keys: iset<Text>)
    ensures ItemsStill(a, a, keys)
  {}

  lemma MembersUnchanged(a: seq<Keyed<Tree>>, keys: iset<Text>)
    ensures MembersStill(a, a, keys)
  {}

  lemma {:induction false} ComparedItemsKeep(a: seq<Tree>, b: seq<Tree>, keys: iset<Text>, caseSensitive: bool)
    ensures var r := ComparedItems(a, b, caseSensitive); ItemsStill(a, r.a, keys) && ItemsStill(b, r.b, keys)
    decreases a
  {
    hide Compared, StillIs;
    AllUnchanged(a, keys);
    AllUnchanged(b, keys);
    if a != [] && b != [] {
      ComparedKeeps(a[0], b[0], keys, caseSensitive);
      ComparedItemsKeep(a[1..], b[1..], keys, caseSensitive);
      AllUnchanged(a[1..], keys);
      AllUnchanged(b[1..], keys);
    }
  }

  lemma MembersStillGrow(x: Keyed<Tree>, y: Tree, a: seq<Keyed<Tree>>, b: seq<Keyed<Tree>>, keys: iset<Text>)
    requires StillIs(x.value, y, keys) && MembersStill(a, b, keys)
    ensures MembersStill([x] + a, [Keyed(x.key, y)] + b, keys)
  {
    hide StillIs;
  }

  lemma {:induction false} ComparedMembersKeep(a: seq<Keyed<Tree>>, b: seq<Keyed<Tree>>, keys: iset<Text>,
                                               caseSensitive: bool, t: Tree)
    requires TreesInside(a, t)
    ensures var r := ComparedMembers(a, b, caseSensitive, t); MembersStill(a, r.a, keys) && MembersStill(b, r.b, keys)
    decreases t, 0, |a|
  {
    MembersUnchanged(a, keys);
    MembersUnchanged(b, keys);
    if a == [] || b == [] {
      return;
    }
    MembersUnfold(a, b, 0, caseSensitive, t);
    hide Compared, StillIs, CompareStrings, ComparedMembers, MembersStill, TreesInside;
    assert a[0..] == a && b[0..] == b && [a[0]] + a[1..] == a && [b[0]] + b[1..] == b;
    var first := Compared(a[0].value, b[0].value, caseSensitive);
    ComparedKeeps(a[0].value, b[0].value, keys, caseSensitive);
    ComparedMembersKeep(a[1..], b[1..], keys, caseSensitive, t);
    MembersUnchanged(a[1..], keys);
    MembersUnchanged(b[1..], keys);
    var rest := if first.same then ComparedMembers(a[1..], b[1..], caseSensitive, t)
                else Outcome(false, a[1..], b[1..]);
    MembersStillGrow(a[0], first.a, a[1..], rest.a, keys);
    MembersStillGrow(b[0], first.b, b[1..], rest.b, keys);
  }

  // ---------------------------------------------------------------------------------------------
  // Comparisons that leave the links alone
  // ---------------------------------------------------------------------------------------------

  /** The members of all objects stand in the order of their names. */
  predicate Ordered(v: Value, caseSensitive: bool) {
    match v
    case Array(items) => forall i :: 0 <= i < |items| ==> Ordered(items[i], caseSensitive)
    case Object(ms) =>
      StrictlySorted(ms, caseSensitive) && forall i :: 0 <= i < |ms| ==> Ordered(ms[i].value, caseSensitive)
    case _ => true
  }

  /** Right links everywhere, and nothing to sort. */
  predicate Settled(t: Tree, caseSensitive: bool) {
    Sound(t) && Ordered(Plain(t), caseSensitive)
  }

  /** The same document, with right links. */
  predicate StaysSound(t: Tree, u: Tree) {
    Sound(u) && Plain(u) == Plain(t)
  }

  lemma GroupIsSettled(ms: seq<Keyed<Tree>>, tail: Tail, caseSensitive: bool)
    ensures Settled(Group(ms, tail), caseSensitive)
       <==> && Right(tail, |ms|) && StrictlySorted(ms, caseSensitive)
            && forall i :: 0 <= i < |ms| ==> Settled(ms[i].value, caseSensitive)
  {
    hide CompareStrings;
    var pm := PlainMembers(ms);
    assert forall i :: 0 < i < |ms| ==>
                         Compare(pm[i - 1], pm[i], caseSensitive) == Compare(ms[i - 1], ms[i], caseSensitive);
  }

  lemma SettledGroup(ms: seq<Keyed<Tree>>, tail: Tail, caseSensitive: bool)
    requires Right(tail, |ms|) && StrictlySorted(ms, caseSensitive)
    ensures var (from, fromTail) := Arranged(ms, tail, caseSensitive); from == ms && Right(fromTail, |ms|)
  {
    hide CompareStrings, Sort, Order;
    InOrderStays(ms, caseSensitive);
    SortIsOrder(ms, caseSensitive);
    AfterSortIsRight(tail, Order(Keys(ms), caseSensitive));
  }

  lemma GroupStaysSound(ms: seq<Keyed<Tree>>, r: seq<Keyed<Tree>>, tail: Tail, tail': Tail)
    requires Right(tail', |ms|) && MembersStaySound(ms, r)
    ensures StaysSound(Group(ms, tail), Group(r, tail'))
  {
    hide Sound;
    assert PlainMembers(r) == PlainMembers(ms);
    assert (forall i :: 0 <= i < |r| ==> Sound(r[i].value)) ==> Sound(Group(r, tail')) by { SoundGroup(r, tail'); }
  }

  lemma SoundGroup(ms: seq<Keyed<Tree>>, tail: Tail)
    ensures Sound(Group(ms, tail)) <==> Right(tail, |ms|) && forall i :: 0 <= i < |ms| ==> Sound(ms[i].value)
  {}

  /** Comparing an ordered document, with whatever, changes neither the order nor the links. */
  lemma {:induction false} SettledStays(a: Tree, b: Tree, caseSensitive: bool)
    requires Settled(a, caseSensitive)
    ensures StaysSound(a, Compared(a, b, caseSensitive).a)
    decreases a, 1, 0
  {
    if SameType(Plain(a), Plain(b)) {
      match a {
        case Leaf(_) =>
        case List(items) =>
          SettledItemsStay(items, b.items, caseSensitive);
          assert PlainItems(ComparedItems(items, b.items, caseSensitive).a) == PlainItems(items);
        case Group(ms, tail) =>
          GroupIsSettled(ms, tail, caseSensitive);
          SettledGroup(ms, tail, caseSensitive);
          ArrangedInside(ms, tail, caseSensitive);
          hide Sort, Order, Settled, StaysSound, StrictlySorted, AfterSort;
          var other := Sort(b.members, caseSensitive);
          SettledMembersStay(ms, other, caseSensitive, a);
          GroupStaysSound(ms, ComparedMembers(ms, other, caseSensitive, a).a, tail,
                          AfterSort(tail, Order(Keys(ms), caseSensitive)));
      }
    }
  }

  lemma {:induction false} SettledItemsStay(a: seq<Tree>, b: seq<Tree>, caseSensitive: bool)
    requires forall i :: 0 <= i < |a| ==> Settled(a[i], caseSensitive)
    ensures forall i :: 0 <= i < |a| ==> StaysSound(a[i], ComparedItems(a, b, caseSensitive).a[i])
    decreases a
  {
    forall x: Tree | Settled(x, caseSensitive) ensures StaysSound(x, x) {}
    hide Compared, Settled, StaysSound;
    if a != [] && b != [] {
      SettledStays(a[0], b[0], caseSensitive);
      SettledItemsStay(a[1..], b[1..], caseSensitive);
    }
  }

  ghost predicate MembersStaySound(a: seq<Keyed<Tree>>, r: seq<Keyed<Tree>>) {
    |a| == |r| && forall i :: 0 <= i < |a| ==> r[i].key == a[i].key && StaysSound(a[i].value, r[i].value)
  }

  lemma MembersAreSound(a: seq<Keyed<Tree>>, caseSensitive: bool)
    requires forall i :: 0 <= i < |a| ==> Settled(a[i].value, caseSensitive)
    ensures MembersStaySound(a, a)
  {}

  lemma MembersStaySoundGrow(x: Keyed<Tree>, y: Tree, a: seq<Keyed<Tree>>, r: seq<Keyed<Tree>>)
    requires StaysSound(x.value, y) && MembersStaySound(a, r)
    ensures MembersStaySound([x] + a, [Keyed(x.key, y)] + r)
  {
    hide StaysSound;
  }

  lemma {:induction false} SettledMembersStay(a: seq<Keyed<Tree>>, b: seq<Keyed<Tree>>, caseSensitive: bool, t: Tree)
    requires TreesInside(a, t) && forall i :: 0 <= i < |a| ==> Settled(a[i].value, caseSensitive)
    ensures MembersStaySound(a, ComparedMembers(a, b, caseSensitive, t).a)
    decreases t, 0, |a|
  {
    MembersAreSound(a, caseSensitive);
    if a == [] || b == [] {
      return;
    }
    MembersUnfold(a, b, 0, caseSensitive, t);
    MembersAreSound(a[1..], caseSensitive);
    hide Compared, Settled, StaysSound, CompareStrings, ComparedMembers, MembersStaySound, TreesInside;
    assert a[0..] == a && b[0..] == b && [a[0]] + a[1..] == a;
    SettledStays(a[0].value, b[0].value, caseSensitive);
    SettledMembersStay(a[1..], b[1..], caseSensitive, t);
    var first := Compared(a[0].value, b[0].value, caseSensitive);
    var rest := if first.same then ComparedMembers(a[1..], b[1..], caseSensitive, t)
                else Outcome(false, a[1..], b[1..]);
    MembersStaySoundGrow(a[0], first.a, a[1..], rest.a);
  }

  /** No object in the value has two members or more. */
  predicate Narrow(v: Value) {
    match v
    case Array(items) => forall i :: 0 <= i < |items| ==> Narrow(items[i])
    case Object(ms) => |ms| <= 1 && forall i :: 0 <= i < |ms| ==> Narrow(ms[i].value)
    case _ => true
  }

  /** What equals such a value has nothing to sort either. */
  lemma {:induction false} SameAsNarrow(a: Tree, b: Tree, caseSensitive: bool)
    requires Compared(a, b, caseSensitive).same && Narrow(Plain(b))
    ensures Ordered(Plain(a), caseSensitive)
    decreases a, 1, 0
  {
    match a {
      case Leaf(_) =>
      case List(items) =>
        ItemsAsNarrow(items, b.items, caseSensitive);
      case Group(ms, tail) =>
        ArrangedInside(ms, tail, caseSensitive);
        MembersAsNarrow(Sort(ms, caseSensitive), Sort(b.members, caseSensitive), caseSensitive, a);
    }
  }

  lemma {:induction false} ItemsAsNarrow(a: seq<Tree>, b: seq<Tree>, caseSensitive: bool)
    requires ComparedItems(a, b, caseSensitive).same && forall i :: 0 <= i < |b| ==> Narrow(Plain(b[i]))
    ensures forall i :: 0 <= i < |a| ==> Ordered(Plain(a[i]), caseSensitive)
    decreases a
  {
    hide Compared, Ordered, Narrow, Plain;
    if a != [] && b != [] {
      SameAsNarrow(a[0], b[0], caseSensitive);
      ItemsAsNarrow(a[1..], b[1..], caseSensitive);
    }
  }

  lemma {:induction false} MembersAsNarrow(a: seq<Keyed<Tree>>, b: seq<Keyed<Tree>>, caseSensitive: bool, t: Tree)
    requires TreesInside(a, t) && |b| <= 1 && forall i :: 0 <= i < |b| ==> Narrow(Plain(b[i].value))
    requires ComparedMembers(a, b, caseSensitive, t).same
    ensures |a| <= 1 && forall i :: 0 <= i < |a| ==> Ordered(Plain(a[i].value), caseSensitive)
    decreases t, 0, |a|
  {
    hide Compared, Ordered, Narrow, Plain, CompareStrings;
    if a != [] && b != [] {
      SameAsNarrow(a[0].value, b[0].value, caseSensitive);
      MembersAsNarrow(a[1..], b[1..], caseSensitive, t);
    }
  }
}
