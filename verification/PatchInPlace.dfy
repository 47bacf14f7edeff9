/** Generated patches applied to the very document that they were generated from: generating has sorted its objects,
    which leaves some of them with a wrong `prev` of the first child. */
module PatchInPlace {
  import opened Bytes
  import opened Json
  import opened JsonPointer
  import opened PointerDecode
  import opened PointerText
  import opened KeyedSort
  import opened ListTail
  import opened JsonNormal
  import opened JsonCompare
  import opened JsonPatch
  import opened PatchReference
  import opened PatchOperations
  import opened LinkedTree
  import opened LinkedPatch
  import opened PatchDiff
  import opened DiffRoundTrip
  import opened PatchLists
  import opened PatchRuns
  import opened PatchFit

  // ---------------------------------------------------------------------------------------------
  // The generated patches, one after the other
  // ---------------------------------------------------------------------------------------------

  lemma {:induction false} ItemEditsBelowRoot(from: seq<Value>, to: seq<Value>, i: nat, caseSensitive: bool)
    requires i <= |from| && i <= |to|
    ensures BelowRoot(EditsOfItems(from, to, i, caseSensitive))
    decreases |from| - i
  {
    hide Edits, Decimal;
    if i < |from| && i < |to| {
      ItemEditsBelowRoot(from, to, i + 1, caseSensitive);
    } else {
      RemovalsBelowRoot(Decimal(i), |from| - i, to[i..]);
    }
  }

  lemma {:induction false} RemovalsBelowRoot(t: Text, n: nat, more: seq<Value>)
    ensures BelowRoot(Removals(t, n)) && BelowRoot(Additions(more))
    decreases n + |more|
  {
    if n > 0 {
      RemovalsBelowRoot(t, n - 1, more);
    } else if more != [] {
      RemovalsBelowRoot(t, n, more[1..]);
    }
  }

  lemma {:induction false} MemberEditsBelowRoot(from: seq<Keyed<Value>>, to: seq<Keyed<Value>>, caseSensitive: bool,
                                                v: Value)
    requires Inside(from, v)
    ensures BelowRoot(EditsOfMembers(from, to, caseSensitive, v))
    decreases |from| + |to|
  {
    hide Edits, CompareStrings;
    if from != [] && to != [] {
      MemberEditsBelowRoot(from[1..], to[1..], caseSensitive, v);
    }
    if from != [] {
      MemberEditsBelowRoot(from[1..], to, caseSensitive, v);
    }
    if to != [] {
      MemberEditsBelowRoot(from, to[1..], caseSensitive, v);
    }
  }

  /** Either one patch for the whole, or patches for what is below. */
  lemma EditsShape(from: Value, to: Value, caseSensitive: bool)
    ensures if Replaces(from, to) then Edits(from, to, caseSensitive) == [Edit([], Replace(to))]
            else BelowRoot(Edits(from, to, caseSensitive))
  {
    if !Replaces(from, to) {
      match from {
        case Array(items) =>
          ItemEditsBelowRoot(items, to.items, 0, caseSensitive);
        case Object(ms) =>
          SortedInside(ms, caseSensitive);
          MemberEditsBelowRoot(Sort(ms, caseSensitive), Sort(to.members, caseSensitive), caseSensitive, from);
        case _ =>
      }
    }
  }

  lemma OneBelow(t: Text, v: Value)
    ensures BelowToken(t, [Edit([], Replace(v))]) == [Edit([t], Replace(v))]
  {
    assert [t] + [] == [t];
  }

  lemma InTheMiddle<T>(front: seq<T>, x: T, rest: seq<T>, back: seq<T>, y: T)
    ensures var s := front + ([x] + rest) + back;
            && |front| < |s| && s[|front|] == x && RemoveAt(s, |front|) == front + rest + back
            && s[|front| := y] == (front + [y]) + rest + back
            && (front + rest + back) + [y] == front + rest + (back + [y])
  {}

  /** Taking out the first of the `n` items behind `i` others, and of all others if the links are wrong. */
  lemma RightAfterTaking(tail: Tail, i: nat, n: nat, all: nat)
    requires n > 0 && i + n <= all && (Right(tail, all) || i + n == all)
    ensures Right(Without(tail, all, i), all - 1) <==> Right(tail, all) || n == 1
  {
    if Right(tail, all) {
      WithoutKeepsRight(tail, all, i);
    } else {
      WithoutRepairs(tail, all, i);
    }
  }

  lemma NamesMember(ms: seq<Keyed<Tree>>, tail: Tail, i: nat, keys: iset<Text>, caseSensitive: bool)
    requires FineTrees(ms, keys) && Safe(keys) && i < |ms|
    ensures Names(Plain(Group(ms, tail)), ms[i].key, i, caseSensitive)
  {
    hide Fine, Escape, FindMember, Recoverable;
    SafeSeparates(keys, caseSensitive);
    KeysDiffer(ms, keys);
    PlainOfGroup(ms, tail);
    var t := ms[i].key;
    forall rest | IsRest(rest) ensures Step(Plain(Group(ms, tail)), Escape(t) + rest, caseSensitive) == Some(i) {
      FindMemberIsExact(PlainMembers(ms), 0, t, rest, keys, caseSensitive);
    }
  }

  lemma NamesItem(items: seq<Tree>, t: Text, i: nat, caseSensitive: bool)
    requires i < |items| && IsIndex(t) && DigitsValue(t) == i
    ensures Names(Plain(List(items)), t, i, caseSensitive)
  {
    hide Escape, DecodeIndex, IsIndex, DigitsValue;
    IndexHasNoEscape(t);
    forall rest | IsRest(rest) ensures Step(Plain(List(items)), Escape(t) + rest, caseSensitive) == Some(i) {
      IndexIsDecoded(t, rest);
    }
  }

  /** One round, for a member that is dropped, added or replaced. */
  lemma RunFirst(doc: Tree, e: Edit, rest: seq<Edit>, caseSensitive: bool)
    ensures Run(doc, [e] + rest, caseSensitive)
         == match RunOne(doc, e, caseSensitive) case None => None case Some(d) => Run(d, rest, caseSensitive)
  {
    hide RunOne;
    assert ([e] + rest)[0] == e && ([e] + rest)[1..] == rest;
  }

  /** Where generating has sorted what is below a child, the patches for the child do there what they do to it. */
  lemma RunShared(ms: seq<Keyed<Tree>>, tail: Tail, i: nat, x: Tree, y: Tree, keys: iset<Text>, caseSensitive: bool)
    requires FineTrees(ms, keys) && Safe(keys) && i < |ms| && Fine(Plain(x), keys) && Fine(Plain(y), keys)
    requires !Replaces(Plain(x), Plain(y)) && ms[i].value == Walked(x, y, caseSensitive).a
    ensures var es := Edits(Plain(x), Plain(y), caseSensitive);
            var c, r := Run(ms[i].value, es, caseSensitive),
                        Run(Group(ms, tail), BelowToken(ms[i].key, es), caseSensitive);
            && (c.None? <==> r.None?)
            && (c.Some? ==>
                  r == Some(Group(ms[i := Keyed(ms[i].key, c.value)], tail))
                  && FineTrees(ms[i := Keyed(ms[i].key, c.value)], keys))
  {
    hide Edits, Walked, Run, Safe, Fine, Norm, Plain, FineTrees, ChangedAll, BelowToken, AllSafe, Names, Replaces;
    var es := Edits(Plain(x), Plain(y), caseSensitive);
    EditsShape(Plain(x), Plain(y), caseSensitive);
    NamesMember(ms, tail, i, keys, caseSensitive);
    RunBelow(Group(ms, tail), i, ms[i].key, es, caseSensitive);
    var c := Run(ms[i].value, es, caseSensitive);
    if c.Some? {
      WalkedStill(x, y, keys, caseSensitive);
      SafeSeparates(keys, caseSensitive);
      EditsReach(Plain(x), Plain(y), keys, caseSensitive);
      EditsAreSafe(Plain(x), Plain(y), keys, caseSensitive);
      RunIsChange(ms[i].value, es, keys, caseSensitive);
      FineWithValue(ms, i, c.value, keys);
    }
  }

  lemma FineWithValue(ms: seq<Keyed<Tree>>, i: nat, w: Tree, keys: iset<Text>)
    requires FineTrees(ms, keys) && i < |ms| && Fine(Plain(w), keys)
    ensures FineTrees(ms[i := Keyed(ms[i].key, w)], keys)
  {
    hide Fine, Plain;
    var pm := PlainMembers(ms);
    assert PlainMembers(ms[i := Keyed(ms[i].key, w)]) == pm[i := Keyed(ms[i].key, Plain(w))];
  }

  /** The members in the course of the walk: `a` and `b` are those not yet walked past, `front` those that have stayed,
      and `back` those that have been added. */
  ghost function Now(front: seq<Keyed<Tree>>, a: seq<Keyed<Tree>>, b: seq<Keyed<Tree>>, back: seq<Keyed<Tree>>,
                     caseSensitive: bool, t: Tree): seq<Keyed<Tree>>
    requires TreesInside(a, t)
  {
    front + WalkedMembers(a, b, caseSensitive, t).a + back
  }

  ghost predicate Midway(front: seq<Keyed<Tree>>, a: seq<Keyed<Tree>>, b: seq<Keyed<Tree>>, back: seq<Keyed<Tree>>,
                         tail: Tail, keys: iset<Text>, caseSensitive: bool, t: Tree)
    requires TreesInside(a, t)
  {
    var now := Now(front, a, b, back, caseSensitive, t);
    && FineTrees(now, keys) && FineTrees(a, keys) && FineTrees(b, keys)
    && Strict(a, caseSensitive) && Strict(b, caseSensitive)
    && (forall m, j :: m in front + back && 0 <= j < |b| ==> m.key != b[j].key)
    && (Right(tail, |now|) || back == [])
  }

  lemma WalkedSameKeys(a: seq<Keyed<Tree>>, b: seq<Keyed<Tree>>, caseSensitive: bool, t: Tree)
    requires TreesInside(a, t)
    ensures var r := WalkedMembers(a, b, caseSensitive, t).a;
            |r| == |a| && forall i :: 0 <= i < |a| ==> r[i].key == a[i].key
  {
    WalkedMembersStill(a, b, iset{}, caseSensitive, t);
    hide WalkedMembers, StillIs;
  }

  lemma TailsFine(a: seq<Keyed<Tree>>, keys: iset<Text>, caseSensitive: bool)
    requires a != [] && FineTrees(a, keys) && Strict(a, caseSensitive)
    ensures FineTrees(a[1..], keys) && Strict(a[1..], caseSensitive)
    ensures a[0].key in keys && Fine(Plain(a[0].value), keys)
    ensures forall i :: 0 <= i < |a[1..]| ==> a[1..][i].key != a[0].key
  {
    hide Plain, Fine, CompareStrings;
    assert PlainMembers(a[1..]) == PlainMembers(a)[1..];
    KeysDiffer(a, keys);
  }

  lemma TellingOfFine(a: seq<Keyed<Tree>>, b: seq<Keyed<Tree>>, keys: iset<Text>, caseSensitive: bool)
    requires FineTrees(a, keys) && FineTrees(b, keys) && Safe(keys)
    ensures Telling(a, b, caseSensitive)
  {
    hide Plain, Fine, CompareStrings, FineTrees;
    SafeSeparates(keys, caseSensitive);
    KeysDiffer(a, keys);
    KeysDiffer(b, keys);
    forall i, j | 0 <= i < |a| && 0 <= j < |b|
      ensures CompareStrings(a[i].key, b[j].key, caseSensitive) == 0 <==> a[i].key == b[j].key
    {
      CompareIsZero(a[i].key, b[j].key, keys, caseSensitive);
    }
  }

  /** A member that is dropped. */
  lemma DropStep(front: seq<Keyed<Tree>>, a: seq<Keyed<Tree>>, b: seq<Keyed<Tree>>, back: seq<Keyed<Tree>>, tail: Tail,
                 keys: iset<Text>, caseSensitive: bool, t: Tree, rest: seq<Edit>)
    requires TreesInside(a, t) && Midway(front, a, b, back, tail, keys, caseSensitive, t) && Safe(keys)
    requires a != [] && (b == [] || CompareStrings(a[0].key, b[0].key, caseSensitive) < 0)
    ensures TreesInside(a[1..], t)
    ensures var now, next := Now(front, a, b, back, caseSensitive, t), Now(front, a[1..], b, back, caseSensitive, t);
            var tail' := Without(tail, |now|, |front|);
            && Midway(front, a[1..], b, back, tail', keys, caseSensitive, t)
            && (Right(tail', |next|) <==> Right(tail, |now|) || |a| == 1)
            && Run(Group(now, tail), [Edit([a[0].key], Remove)] + rest, caseSensitive)
               == Run(Group(next, tail'), rest, caseSensitive)
  {
    hide Walked, CompareStrings, RunOne, Run, Safe, FineTrees, Strict, RemoveAt, Without, Right;
    var walked, behind := WalkedMembers(a, b, caseSensitive, t).a, WalkedMembers(a[1..], b, caseSensitive, t).a;
    assert walked == [a[0]] + behind;
    TailsFine(a, keys, caseSensitive);
    InTheMiddle(front, a[0], behind, back, a[0]);
    var now := front + walked + back;
    DropOneMember(now, tail, |front|, keys, caseSensitive);
    RunFirst(Group(now, tail), Edit([a[0].key], Remove), rest, caseSensitive);
    WalkedSameKeys(a, b, caseSensitive, t);
    RightAfterTaking(tail, |front|, |a|, |now|);
  }

  /** A member that is new. */
  lemma AddStep(front: seq<Keyed<Tree>>, a: seq<Keyed<Tree>>, b: seq<Keyed<Tree>>, back: seq<Keyed<Tree>>, tail: Tail,
                keys: iset<Text>, caseSensitive: bool, t: Tree, rest: seq<Edit>)
    requires TreesInside(a, t) && Midway(front, a, b, back, tail, keys, caseSensitive, t) && Safe(keys)
    requires b != [] && (a == [] || CompareStrings(a[0].key, b[0].key, caseSensitive) > 0)
    requires forall i :: 0 <= i < |a| ==> a[i].key != b[0].key
    ensures var k, v, now := b[0].key, Plain(b[0].value), Now(front, a, b, back, caseSensitive, t);
            var back' := back + [Keyed(k, Fresh(v))];
            var next := Now(front, a, b[1..], back', caseSensitive, t);
            && |next| == |now| + 1
            && (Right(tail, |now|) ==> Midway(front, a, b[1..], back', At(|now|), keys, caseSensitive, t))
            && Run(Group(now, tail), [Edit([k], Add(v))] + rest, caseSensitive)
               == if Right(tail, |now|) then Run(Group(next, At(|now|)), rest, caseSensitive) else None
  {
    hide Walked, CompareStrings, RunOne, Run, Safe, FineTrees, Strict, Fresh, Plain, Fine;
    var k, v, walked := b[0].key, Plain(b[0].value), WalkedMembers(a, b, caseSensitive, t).a;
    assert walked == WalkedMembers(a, b[1..], caseSensitive, t).a;
    TailsFine(b, keys, caseSensitive);
    WalkedSameKeys(a, b, caseSensitive, t);
    hide WalkedMembers;
    var now := front + walked + back;
    forall m | m in now ensures m.key != k {
      if m in walked {
        var i :| 0 <= i < |walked| && walked[i] == m;
      } else {
        assert m in front + back;
      }
    }
    InTheMiddle(front, b[0], walked, back, Keyed(k, Fresh(v)));
    AddOneMember(now, tail, k, v, keys, caseSensitive);
    RunFirst(Group(now, tail), Edit([k], Add(v)), rest, caseSensitive);
  }

  /** A member that is replaced. */
  lemma ReplaceStep(front: seq<Keyed<Tree>>, a: seq<Keyed<Tree>>, b: seq<Keyed<Tree>>, back: seq<Keyed<Tree>>,
                    tail: Tail, keys: iset<Text>, caseSensitive: bool, t: Tree, rest: seq<Edit>)
    requires TreesInside(a, t) && Midway(front, a, b, back, tail, keys, caseSensitive, t) && Safe(keys)
    requires a != [] && b != [] && CompareStrings(a[0].key, b[0].key, caseSensitive) == 0 && a[0].key == b[0].key
    ensures TreesInside(a[1..], t)
    ensures var k, v, now := a[0].key, Plain(b[0].value), Now(front, a, b, back, caseSensitive, t);
            var back', tail' := back + [Keyed(k, Fresh(v))], At(|now| - 1);
            var next := Now(front, a[1..], b[1..], back', caseSensitive, t);
            && |next| == |now| > 0
            && (Right(tail, |now|) || |a| == 1 ==>
                  Midway(front, a[1..], b[1..], back', tail', keys, caseSensitive, t))
            && Run(Group(now, tail), [Edit([k], Replace(v))] + rest, caseSensitive)
               == if Right(tail, |now|) || |a| == 1 then Run(Group(next, tail'), rest, caseSensitive) else None
  {
    hide Walked, CompareStrings, RunOne, Run, Safe, FineTrees, Strict, RemoveAt, Without, Fresh, Plain, Fine;
    var k, v := a[0].key, Plain(b[0].value);
    var walked, behind := WalkedMembers(a, b, caseSensitive, t).a, WalkedMembers(a[1..], b[1..], caseSensitive, t).a;
    assert walked == [walked[0]] + behind;
    TailsFine(a, keys, caseSensitive);
    TailsFine(b, keys, caseSensitive);
    WalkedSameKeys(a, b, caseSensitive, t);
    hide WalkedMembers;
    InTheMiddle(front, walked[0], behind, back, Keyed(k, Fresh(v)));
    var now := front + walked + back;
    ReplaceOneMember(now, tail, |front|, v, keys, caseSensitive);
    RunFirst(Group(now, tail), Edit([k], Replace(v)), rest, caseSensitive);
    RightAfterTaking(tail, |front|, |a|, |now|);
  }

  /** A member that both have, and that is patched below. */
  lemma SharedStep(front: seq<Keyed<Tree>>, a: seq<Keyed<Tree>>, b: seq<Keyed<Tree>>, back: seq<Keyed<Tree>>,
                   tail: Tail, keys: iset<Text>, caseSensitive: bool, t: Tree, rest: seq<Edit>)
    requires TreesInside(a, t) && Midway(front, a, b, back, tail, keys, caseSensitive, t) && Safe(keys)
    requires a != [] && b != [] && CompareStrings(a[0].key, b[0].key, caseSensitive) == 0 && a[0].key == b[0].key
    requires !Replaces(Plain(a[0].value), Plain(b[0].value))
    ensures TreesInside(a[1..], t)
    ensures var x, y, k := a[0].value, b[0].value, a[0].key;
            var es := Edits(Plain(x), Plain(y), caseSensitive);
            var now, c := Now(front, a, b, back, caseSensitive, t),
                          Run(Walked(x, y, caseSensitive).a, es, caseSensitive);
            var r := Run(Group(now, tail), BelowToken(k, es) + rest, caseSensitive);
            && (c.None? ==> r == None)
            && (c.Some? ==>
                  var front' := front + [Keyed(k, c.value)];
                  var next := Now(front', a[1..], b[1..], back, caseSensitive, t);
                  && |next| == |now| && Midway(front', a[1..], b[1..], back, tail, keys, caseSensitive, t)
                  && r == Run(Group(next, tail), rest, caseSensitive))
  {
    hide Walked, CompareStrings, Run, Safe, FineTrees, Strict, RemoveAt, Plain, Fine, Edits, BelowToken, Replaces;
    var x, y, k := a[0].value, b[0].value, a[0].key;
    var es := Edits(Plain(x), Plain(y), caseSensitive);
    var walked, behind := WalkedMembers(a, b, caseSensitive, t).a, WalkedMembers(a[1..], b[1..], caseSensitive, t).a;
    assert walked == [Keyed(k, Walked(x, y, caseSensitive).a)] + behind;
    TailsFine(a, keys, caseSensitive);
    TailsFine(b, keys, caseSensitive);
    hide WalkedMembers;
    var now, c := front + walked + back, Run(Walked(x, y, caseSensitive).a, es, caseSensitive);
    InTheMiddle(front, walked[0], behind, back, if c.Some? then Keyed(k, c.value) else walked[0]);
    RunShared(now, tail, |front|, x, y, keys, caseSensitive);
    RunAppend(Group(now, tail), BelowToken(k, es), rest, caseSensitive);
  }

  /** The patches for the rest of the walk run through exactly if they fit. */
  ghost predicate Decided(front: seq<Keyed<Tree>>, a: seq<Keyed<Tree>>, b: seq<Keyed<Tree>>, back: seq<Keyed<Tree>>,
                          tail: Tail, caseSensitive: bool, t: Tree, v: Value)
    requires TreesInside(a, t) && Inside(PlainMembers(a), v)
  {
    var now := Now(front, a, b, back, caseSensitive, t);
    Run(Group(now, tail), EditsOfMembers(PlainMembers(a), PlainMembers(b), caseSensitive, v), caseSensitive).Some?
    <==> FitsWalk(a, b, Right(tail, |now|), caseSensitive)
  }

  lemma PlainTail(a: seq<Keyed<Tree>>, v: Value)
    requires a != [] && Inside(PlainMembers(a), v)
    ensures PlainMembers(a)[1..] == PlainMembers(a[1..]) && Inside(PlainMembers(a[1..]), v)
    ensures PlainMembers(a)[0] == Keyed(a[0].key, Plain(a[0].value)) && Plain(a[0].value) < v
  {
    hide Plain;
    var pa := PlainMembers(a);
    assert pa[1..] == PlainMembers(a[1..]) && pa[0] in pa;
    forall m | m in PlainMembers(a[1..]) ensures m.value < v {
      assert m in pa;
    }
  }

  lemma PlainTailTo(b: seq<Keyed<Tree>>)
    requires b != []
    ensures PlainMembers(b)[1..] == PlainMembers(b[1..])
    ensures PlainMembers(b)[0] == Keyed(b[0].key, Plain(b[0].value))
  {
    hide Plain;
    assert PlainMembers(b)[1..] == PlainMembers(b[1..]);
  }

  lemma DropDecides(front: seq<Keyed<Tree>>, a: seq<Keyed<Tree>>, b: seq<Keyed<Tree>>, back: seq<Keyed<Tree>>,
                    tail: Tail, keys: iset<Text>, caseSensitive: bool, t: Tree, v: Value)
    requires TreesInside(a, t) && Midway(front, a, b, back, tail, keys, caseSensitive, t) && Safe(keys)
    requires Inside(PlainMembers(a), v)
    requires a != [] && (b == [] || CompareStrings(a[0].key, b[0].key, caseSensitive) < 0)
    ensures TreesInside(a[1..], t) && Inside(PlainMembers(a[1..]), v)
    ensures var tail' := Without(tail, |Now(front, a, b, back, caseSensitive, t)|, |front|);
            && Midway(front, a[1..], b, back, tail', keys, caseSensitive, t)
            && (Decided(front, a[1..], b, back, tail', caseSensitive, t, v) ==>
                  Decided(front, a, b, back, tail, caseSensitive, t, v))
  {
    hide Midway, Now, WalkedMembers, CompareStrings, Run, Safe, Plain, Fits, Edits, BelowToken, PlainMembers;
    hide Right, Without, Inside, TreesInside;
    PlainTail(a, v);
    DropStep(front, a, b, back, tail, keys, caseSensitive, t,
             EditsOfMembers(PlainMembers(a[1..]), PlainMembers(b), caseSensitive, v));
    if b != [] {
      PlainTailTo(b);
    }
  }

  lemma AddedEdits(a: seq<Keyed<Tree>>, b: seq<Keyed<Tree>>, right: bool, caseSensitive: bool, v: Value)
    requires b != [] && Inside(PlainMembers(a), v)
    requires a == [] || CompareStrings(a[0].key, b[0].key, caseSensitive) > 0
    ensures EditsOfMembers(PlainMembers(a), PlainMembers(b), caseSensitive, v)
         == [Edit([b[0].key], Add(Plain(b[0].value)))]
            + EditsOfMembers(PlainMembers(a), PlainMembers(b[1..]), caseSensitive, v)
    ensures FitsWalk(a, b, right, caseSensitive) <==> right && FitsWalk(a, b[1..], true, caseSensitive)
  {
    hide CompareStrings, Plain, Fits, Edits, BelowToken, PlainMembers, Inside;
    PlainTailTo(b);
    if a != [] {
      PlainTail(a, v);
    }
  }

  lemma AddDecides(front: seq<Keyed<Tree>>, a: seq<Keyed<Tree>>, b: seq<Keyed<Tree>>, back: seq<Keyed<Tree>>,
                   tail: Tail, keys: iset<Text>, caseSensitive: bool, t: Tree, v: Value)
    requires TreesInside(a, t) && Midway(front, a, b, back, tail, keys, caseSensitive, t) && Safe(keys)
    requires Inside(PlainMembers(a), v)
    requires b != [] && (a == [] || CompareStrings(a[0].key, b[0].key, caseSensitive) > 0)
    requires forall i :: 0 <= i < |a| ==> a[i].key != b[0].key
    ensures var k, now := b[0].key, Now(front, a, b, back, caseSensitive, t);
            var back' := back + [Keyed(k, Fresh(Plain(b[0].value)))];
            && (Right(tail, |now|) ==> Midway(front, a, b[1..], back', At(|now|), keys, caseSensitive, t))
            && ((Right(tail, |now|) ==> Decided(front, a, b[1..], back', At(|now|), caseSensitive, t, v)) ==>
                  Decided(front, a, b, back, tail, caseSensitive, t, v))
  {
    hide Midway, Now, CompareStrings, Run, Safe, Plain, PlainMembers, Fresh, EditsOfMembers, FitsWalk;
    hide Right, Inside, TreesInside;
    var now := Now(front, a, b, back, caseSensitive, t);
    AddedEdits(a, b, Right(tail, |now|), caseSensitive, v);
    RightBehind(|now|);
    AddStep(front, a, b, back, tail, keys, caseSensitive, t,
            EditsOfMembers(PlainMembers(a), PlainMembers(b[1..]), caseSensitive, v));
  }

  lemma ReplacedEdits(a: seq<Keyed<Tree>>, b: seq<Keyed<Tree>>, right: bool, caseSensitive: bool, v: Value)
    requires a != [] && b != [] && Inside(PlainMembers(a), v)
    requires CompareStrings(a[0].key, b[0].key, caseSensitive) == 0 && Replaces(Plain(a[0].value), Plain(b[0].value))
    ensures Inside(PlainMembers(a[1..]), v)
    ensures EditsOfMembers(PlainMembers(a), PlainMembers(b), caseSensitive, v)
         == [Edit([a[0].key], Replace(Plain(b[0].value)))]
            + EditsOfMembers(PlainMembers(a[1..]), PlainMembers(b[1..]), caseSensitive, v)
    ensures FitsWalk(a, b, right, caseSensitive)
       <==> (right || |a| == 1) && FitsWalk(a[1..], b[1..], true, caseSensitive)
  {
    hide CompareStrings, Plain, Fits, Edits, BelowToken, PlainMembers, Replaces, Inside;
    PlainTail(a, v);
    PlainTailTo(b);
    EditsShape(Plain(a[0].value), Plain(b[0].value), caseSensitive);
    OneBelow(a[0].key, Plain(b[0].value));
  }

  lemma ReplaceDecides(front: seq<Keyed<Tree>>, a: seq<Keyed<Tree>>, b: seq<Keyed<Tree>>, back: seq<Keyed<Tree>>,
                       tail: Tail, keys: iset<Text>, caseSensitive: bool, t: Tree, v: Value)
    requires TreesInside(a, t) && Midway(front, a, b, back, tail, keys, caseSensitive, t) && Safe(keys)
    requires Inside(PlainMembers(a), v)
    requires a != [] && b != [] && CompareStrings(a[0].key, b[0].key, caseSensitive) == 0 && a[0].key == b[0].key
    requires Replaces(Plain(a[0].value), Plain(b[0].value))
    ensures TreesInside(a[1..], t) && Inside(PlainMembers(a[1..]), v)
    ensures var now := Now(front, a, b, back, caseSensitive, t);
            var back' := back + [Keyed(a[0].key, Fresh(Plain(b[0].value)))];
            && |now| > 0
            && (Right(tail, |now|) || |a| == 1 ==>
                  Midway(front, a[1..], b[1..], back', At(|now| - 1), keys, caseSensitive, t))
            && ((Right(tail, |now|) || |a| == 1 ==>
                   Decided(front, a[1..], b[1..], back', At(|now| - 1), caseSensitive, t, v)) ==>
                  Decided(front, a, b, back, tail, caseSensitive, t, v))
  {
    hide Midway, Now, CompareStrings, Run, Safe, Plain, PlainMembers, Fresh, EditsOfMembers, FitsWalk;
    hide Right, Inside, TreesInside, Replaces;
    var now := Now(front, a, b, back, caseSensitive, t);
    ReplacedEdits(a, b, Right(tail, |now|), caseSensitive, v);
    var rest := EditsOfMembers(PlainMembers(a[1..]), PlainMembers(b[1..]), caseSensitive, v);
    ReplaceStep(front, a, b, back, tail, keys, caseSensitive, t, rest);
    RightBehind(|now| - 1);
  }

  lemma SharedDecides(front: seq<Keyed<Tree>>, a: seq<Keyed<Tree>>, b: seq<Keyed<Tree>>, back: seq<Keyed<Tree>>,
                      tail: Tail, keys: iset<Text>, caseSensitive: bool, t: Tree, v: Value)
    requires TreesInside(a, t) && Midway(front, a, b, back, tail, keys, caseSensitive, t) && Safe(keys)
    requires Inside(PlainMembers(a), v)
    requires a != [] && b != [] && CompareStrings(a[0].key, b[0].key, caseSensitive) == 0 && a[0].key == b[0].key
    requires !Replaces(Plain(a[0].value), Plain(b[0].value))
    ensures TreesInside(a[1..], t) && Inside(PlainMembers(a[1..]), v)
    ensures var x, y := a[0].value, b[0].value;
            var c := Run(Walked(x, y, caseSensitive).a, Edits(Plain(x), Plain(y), caseSensitive), caseSensitive);
            var front' := front + [Keyed(a[0].key, if c.Some? then c.value else x)];
            && (c.Some? ==> Midway(front', a[1..], b[1..], back, tail, keys, caseSensitive, t))
            && ((c.Some? <==> Fits(x, y, caseSensitive))
                && (c.Some? ==> Decided(front', a[1..], b[1..], back, tail, caseSensitive, t, v)) ==>
                  Decided(front, a, b, back, tail, caseSensitive, t, v))
  {
    hide Midway, Now, WalkedMembers, Walked, CompareStrings, Run, Safe, Plain, Fits, Edits, BelowToken, PlainMembers;
    hide Right, Inside, TreesInside, Replaces;
    PlainTail(a, v);
    PlainTailTo(b);
    SharedStep(front, a, b, back, tail, keys, caseSensitive, t,
               EditsOfMembers(PlainMembers(a[1..]), PlainMembers(b[1..]), caseSensitive, v));
  }

  lemma {:induction false} MembersInPlace(front: seq<Keyed<Tree>>, a: seq<Keyed<Tree>>, b: seq<Keyed<Tree>>,
                                          back: seq<Keyed<Tree>>, tail: Tail, keys: iset<Text>, caseSensitive: bool,
                                          t: Tree, v: Value)
    requires TreesInside(a, t) && Midway(front, a, b, back, tail, keys, caseSensitive, t) && Safe(keys)
    requires Inside(PlainMembers(a), v)
    ensures Decided(front, a, b, back, tail, caseSensitive, t, v)
    decreases t, 0, |a| + |b|, 1
  {
    if a == [] && b == [] {
      WalkEnds(caseSensitive, v);
      return;
    }
    hide Midway, Now, CompareStrings, Safe, Plain, Fresh, Right, Without, Inside, TreesInside, Decided, PlainMembers;
    var now := Now(front, a, b, back, caseSensitive, t);
    var diff := if a == [] then 1 else if b == [] then -1 else CompareStrings(a[0].key, b[0].key, caseSensitive);
    if diff < 0 {
      DropDecides(front, a, b, back, tail, keys, caseSensitive, t, v);
      MembersInPlace(front, a[1..], b, back, Without(tail, |now|, |front|), keys, caseSensitive, t, v);
    } else if diff > 0 {
      NewKey(front, a, b, back, tail, keys, caseSensitive, t);
      AddDecides(front, a, b, back, tail, keys, caseSensitive, t, v);
      if Right(tail, |now|) {
        MembersInPlace(front, a, b[1..], back + [Keyed(b[0].key, Fresh(Plain(b[0].value)))], At(|now|), keys,
                       caseSensitive, t, v);
      }
    } else {
      CommonInPlace(front, a, b, back, tail, keys, caseSensitive, t, v);
    }
  }

  lemma CommonInPlace(front: seq<Keyed<Tree>>, a: seq<Keyed<Tree>>, b: seq<Keyed<Tree>>, back: seq<Keyed<Tree>>,
                      tail: Tail, keys: iset<Text>, caseSensitive: bool, t: Tree, v: Value)
    requires TreesInside(a, t) && Midway(front, a, b, back, tail, keys, caseSensitive, t) && Safe(keys)
    requires Inside(PlainMembers(a), v)
    requires a != [] && b != [] && CompareStrings(a[0].key, b[0].key, caseSensitive) == 0
    ensures Decided(front, a, b, back, tail, caseSensitive, t, v)
    decreases t, 0, |a| + |b|, 0
  {
    hide Midway, Now, CompareStrings, Safe, Plain, Fresh, Right, Inside, TreesInside, Decided, PlainMembers, Walked;
    hide Run, Edits, Fits, Replaces, Fine;
    SameName(front, a, b, back, tail, keys, caseSensitive, t);
    var now, x, y := Now(front, a, b, back, caseSensitive, t), a[0].value, b[0].value;
    if Replaces(Plain(x), Plain(y)) {
      ReplaceDecides(front, a, b, back, tail, keys, caseSensitive, t, v);
      if Right(tail, |now|) || |a| == 1 {
        MembersInPlace(front, a[1..], b[1..], back + [Keyed(a[0].key, Fresh(Plain(y)))], At(|now| - 1), keys,
                       caseSensitive, t, v);
      }
    } else {
      SharedDecides(front, a, b, back, tail, keys, caseSensitive, t, v);
      InPlace(x, y, keys, caseSensitive);
      var c := Run(Walked(x, y, caseSensitive).a, Edits(Plain(x), Plain(y), caseSensitive), caseSensitive);
      if c.Some? {
        MembersInPlace(front + [Keyed(a[0].key, c.value)], a[1..], b[1..], back, tail, keys, caseSensitive, t, v);
      }
    }
  }

  lemma RightBehind(n: nat)
    ensures Right(At(n), n + 1)
  {}

  /** Two first members that compare equal have the same name. */
  lemma SameName(front: seq<Keyed<Tree>>, a: seq<Keyed<Tree>>, b: seq<Keyed<Tree>>, back: seq<Keyed<Tree>>, tail: Tail,
                 keys: iset<Text>, caseSensitive: bool, t: Tree)
    requires TreesInside(a, t) && Midway(front, a, b, back, tail, keys, caseSensitive, t) && Safe(keys)
    requires a != [] && b != [] && CompareStrings(a[0].key, b[0].key, caseSensitive) == 0
    ensures a[0].key == b[0].key && a[0].value < t
    ensures Fine(Plain(a[0].value), keys) && Fine(Plain(b[0].value), keys)
  {
    hide WalkedMembers, Fine, FineTrees, Plain, Now, CompareStrings, Strict;
    TailsFine(a, keys, caseSensitive);
    TailsFine(b, keys, caseSensitive);
    TellingOfFine(a, b, keys, caseSensitive);
    assert a[0] in a;
  }

  lemma NewKey(front: seq<Keyed<Tree>>, a: seq<Keyed<Tree>>, b: seq<Keyed<Tree>>, back: seq<Keyed<Tree>>, tail: Tail,
               keys: iset<Text>, caseSensitive: bool, t: Tree)
    requires TreesInside(a, t) && Midway(front, a, b, back, tail, keys, caseSensitive, t) && Safe(keys)
    requires b != [] && (a == [] || CompareStrings(a[0].key, b[0].key, caseSensitive) > 0)
    ensures forall i :: 0 <= i < |a| ==> a[i].key != b[0].key
  {
    hide WalkedMembers, CompareStrings, FineTrees, Now;
    TellingOfFine(a, b, keys, caseSensitive);
    if a != [] {
      CompareThrough(a[0].key, b[0].key, b[0].key, caseSensitive);
      InFront(b[0].key, a, caseSensitive);
    }
  }

  lemma {:induction false} ItemsInPlace(front: seq<Tree>, a: seq<Tree>, b: seq<Tree>, i: nat, keys: iset<Text>,
                                        caseSensitive: bool)
    requires i == |front| <= |a| && i <= |b| && Safe(keys)
    requires forall j :: 0 <= j < |a| ==> Fine(Plain(a[j]), keys)
    requires forall j :: 0 <= j < |b| ==> Fine(Plain(b[j]), keys)
    ensures var now := front + WalkedItems(a[i..], b[i..], caseSensitive).a;
            (Run(List(now), EditsOfItems(PlainItems(a), PlainItems(b), i, caseSensitive), caseSensitive).Some?
             <==> forall j :: i <= j < |a| && j < |b| ==> Fits(a[j], b[j], caseSensitive))
    decreases a, 0, |a| - i
  {
    var token := Decimal(i);
    DecimalIsIndex(i);
    hide Walked, Run, Edits, Fits, Safe, Fine, Plain, Decimal, IsIndex, DigitsValue, BelowToken, Replaces, RunOne;
    hide Names;
    var walked := WalkedItems(a[i..], b[i..], caseSensitive).a;
    var now := front + walked;
    if i < |a| && i < |b| {
      var x, y := a[i], b[i];
      var es, rest := Edits(Plain(x), Plain(y), caseSensitive),
                      EditsOfItems(PlainItems(a), PlainItems(b), i + 1, caseSensitive);
      assert a[i..][1..] == a[i + 1..] && b[i..][1..] == b[i + 1..];
      var behind := WalkedItems(a[i + 1..], b[i + 1..], caseSensitive).a;
      assert walked == [Walked(x, y, caseSensitive).a] + behind && now[i] == walked[0];
      EditsShape(Plain(x), Plain(y), caseSensitive);
      RunAppend(List(now), BelowToken(token, es), rest, caseSensitive);
      if Replaces(Plain(x), Plain(y)) {
        OneBelow(token, Plain(y));
        IndexIsNoDash(token);
        ReplaceOneItem(now, token, i, Plain(y), keys, caseSensitive);
        RunSingle(List(now), Edit([token], Replace(Plain(y))), caseSensitive);
        ReplacedFits(x, y, caseSensitive);
        assert now[i := Fresh(Plain(y))] == (front + [Fresh(Plain(y))]) + behind;
        ItemsInPlace(front + [Fresh(Plain(y))], a, b, i + 1, keys, caseSensitive);
      } else {
        NamesItem(now, token, i, caseSensitive);
        RunBelow(List(now), i, token, es, caseSensitive);
        InPlace(x, y, keys, caseSensitive);
        var c := Run(now[i], es, caseSensitive);
        if c.Some? {
          assert now[i := c.value] == (front + [c.value]) + behind;
          ItemsInPlace(front + [c.value], a, b, i + 1, keys, caseSensitive);
        }
      }
    } else {
      var more := PlainItems(b)[i..];
      RemovalsRun(now, token, i, |a| - i, keys, caseSensitive);
      AdditionsRun(now[..i], more, keys, caseSensitive);
      RunAppend(List(now), Removals(token, |a| - i), Additions(more), caseSensitive);
    }
  }

  lemma IndexIsNoDash(t: Text)
    requires IsIndex(t)
    ensures t != "-"
  {}

  lemma ReplacedFits(x: Tree, y: Tree, caseSensitive: bool)
    requires Replaces(Plain(x), Plain(y))
    ensures Fits(x, y, caseSensitive)
  {}

  lemma SortedIsStrict(ms: seq<Keyed<Tree>>, keys: iset<Text>, caseSensitive: bool)
    requires FineTrees(ms, keys) && Safe(keys)
    ensures FineTrees(Sort(ms, caseSensitive), keys) && Strict(Sort(ms, caseSensitive), caseSensitive)
  {
    hide Fine, Plain, CompareStrings, Sort, FineMembers;
    SortKeepsMembers(PlainMembers(ms), keys, caseSensitive);
    PlainSorted(ms, caseSensitive);
    SortIsSorted(ms, caseSensitive);
    var r := Sort(ms, caseSensitive);
    KeysDiffer(r, keys);
    SafeSeparates(keys, caseSensitive);
    forall i, j | 0 <= i < j < |r| ensures CompareStrings(r[i].key, r[j].key, caseSensitive) < 0 {
      CompareIsZero(r[i].key, r[j].key, keys, caseSensitive);
      assert Compare(r[i], r[j], caseSensitive) <= 0;
    }
  }

  /** The whole of an object is a walk from its beginning. */
  lemma WalkBegins(from: seq<Keyed<Tree>>, to: seq<Keyed<Tree>>, tail: Tail, keys: iset<Text>, caseSensitive: bool,
                   t: Tree)
    requires TreesInside(from, t) && FineTrees(from, keys) && FineTrees(to, keys)
    requires Strict(from, caseSensitive) && Strict(to, caseSensitive)
    ensures Midway([], from, to, [], tail, keys, caseSensitive, t)
    ensures Now([], from, to, [], caseSensitive, t) == WalkedMembers(from, to, caseSensitive, t).a
  {
    hide WalkedMembers, FineMembers, Plain, MembersStill, Strict;
    WalkedMembersStill(from, to, keys, caseSensitive, t);
    MembersStillConsistent(from, WalkedMembers(from, to, caseSensitive, t).a, keys);
    var none: seq<Keyed<Tree>> := [];
    var walked := WalkedMembers(from, to, caseSensitive, t).a;
    assert none + walked + none == walked;
  }

  lemma WalkedGroup(ms: seq<Keyed<Tree>>, tail: Tail, b: Tree, caseSensitive: bool)
    requires b.Group?
    ensures var a := Group(ms, tail);
            var (from, fromTail) := Arranged(ms, tail, caseSensitive);
            && TreesInside(from, a)
            && (Walked(a, b, caseSensitive).a
                == Group(WalkedMembers(from, Sort(b.members, caseSensitive), caseSensitive, a).a, fromTail))
  {
    ArrangedInside(ms, tail, caseSensitive);
    hide Sort, Order, AfterSort, WalkedMembers, PlainMembers, TreesInside;
  }

  lemma EditsOfGroup(ms: seq<Keyed<Tree>>, tail: Tail, b: Tree, caseSensitive: bool)
    requires b.Group?
    ensures var a, from := Group(ms, tail), Sort(ms, caseSensitive);
            && Inside(PlainMembers(from), Plain(a))
            && (Edits(Plain(a), Plain(b), caseSensitive)
                == EditsOfMembers(PlainMembers(from), PlainMembers(Sort(b.members, caseSensitive)), caseSensitive,
                                  Plain(a)))
  {
    PlainSorted(ms, caseSensitive);
    PlainSorted(b.members, caseSensitive);
    PlainOfGroup(ms, tail);
    PlainOfGroup(b.members, b.tail);
    SortedInside(PlainMembers(ms), caseSensitive);
    hide Sort, EditsOfMembers, PlainMembers, Plain, Inside;
  }

  lemma FitsOfGroup(ms: seq<Keyed<Tree>>, tail: Tail, b: Tree, caseSensitive: bool)
    requires b.Group?
    ensures var a := Group(ms, tail);
            var (from, fromTail) := Arranged(ms, tail, caseSensitive);
            var to := Sort(b.members, caseSensitive);
            (Fits(a, b, caseSensitive)
             <==> (Right(fromTail, |from|) || AddedBehind(from, to, caseSensitive))
                  && SharedFit(from, to, caseSensitive))
  {
    ArrangedInside(ms, tail, caseSensitive);
    PlainOfGroup(ms, tail);
    PlainOfGroup(b.members, b.tail);
    hide Sort, Order, AfterSort, Right, AddedBehind, Shared, PlainMembers, Plain;
  }

  lemma SharedIsGroup(ms: seq<Keyed<Tree>>, tail: Tail, b: Tree)
    requires !Replaces(Plain(Group(ms, tail)), Plain(b))
    ensures b.Group?
  {}

  lemma GroupInPlace(ms: seq<Keyed<Tree>>, tail: Tail, b: Tree, keys: iset<Text>, caseSensitive: bool)
    requires var a := Group(ms, tail);
             Fine(Plain(a), keys) && Fine(Plain(b), keys) && Safe(keys) && !Replaces(Plain(a), Plain(b))
    ensures var a := Group(ms, tail);
            (Run(Walked(a, b, caseSensitive).a, Edits(Plain(a), Plain(b), caseSensitive), caseSensitive).Some?
             <==> Fits(a, b, caseSensitive))
    decreases Group(ms, tail), 0, |ms| + if b.Group? then |b.members| + 1 else 1
  {
    var a := Group(ms, tail);
    SharedIsGroup(ms, tail, b);
    WalkedGroup(ms, tail, b, caseSensitive);
    EditsOfGroup(ms, tail, b, caseSensitive);
    FitsOfGroup(ms, tail, b, caseSensitive);
    FineObject(PlainMembers(ms), keys);
    FineObject(PlainMembers(b.members), keys);
    hide Safe, Sort, AfterSort, Fine, Strict, Run, EditsOfMembers, WalkedMembers, FitsWalk, Midway, Walked, Edits, Fits;
    hide Telling, AddedBehind, Right, Inside, TreesInside, SharedFit, FineMembers, Now;
    SortedIsStrict(ms, keys, caseSensitive);
    SortedIsStrict(b.members, keys, caseSensitive);
    hide FineTrees;
    var (from, fromTail) := Arranged(ms, tail, caseSensitive);
    var to := Sort(b.members, caseSensitive);
    TellingOfFine(from, to, keys, caseSensitive);
    WalkBegins(from, to, fromTail, keys, caseSensitive, a);
    MembersInPlace([], from, to, [], fromTail, keys, caseSensitive, a, Plain(a));
    WalkIsFit(from, to, Right(fromTail, |from|), caseSensitive);
  }

  /** The generated patches can be applied where they have been generated, with all that they add being kept, exactly if
      the document fits. */
  lemma {:induction false} InPlace(a: Tree, b: Tree, keys: iset<Text>, caseSensitive: bool)
    requires Fine(Plain(a), keys) && Fine(Plain(b), keys) && Safe(keys) && !Replaces(Plain(a), Plain(b))
    ensures Run(Walked(a, b, caseSensitive).a, Edits(Plain(a), Plain(b), caseSensitive), caseSensitive).Some?
       <==> Fits(a, b, caseSensitive)
    decreases a, 1, 0
  {
    hide Safe, Sort, Order, AfterSort;
    match a {
      case Leaf(_) =>
      case List(items) =>
        hide EditsOfItems, WalkedItems, Run;
        FineArray(PlainItems(items), keys);
        FineArray(PlainItems(b.items), keys);
        hide Fine;
        assert items[0..] == items && b.items[0..] == b.items;
        var none: seq<Tree> := [];
        assert none + WalkedItems(items, b.items, caseSensitive).a == WalkedItems(items, b.items, caseSensitive).a;
        ItemsInPlace([], items, b.items, 0, keys, caseSensitive);
      case Group(ms, tail) =>
        GroupInPlace(ms, tail, b, keys, caseSensitive);
    }
  }

  // ---------------------------------------------------------------------------------------------
  // Generating and applying on the same document
  // ---------------------------------------------------------------------------------------------

  function Alters(edits: seq<Edit>): (rs: seq<Request>)
    ensures |rs| == |edits| && forall i :: 0 <= i < |rs| ==> rs[i] == Alter(edits[i])
  {
    seq(|edits|, i requires 0 <= i < |edits| => Alter(edits[i]))
  }

  lemma {:induction false} ChangedIsProper(d: NValue, tokens: seq<Text>, change: Change)
    requires Changed(d, tokens, change).Some?
    ensures ProperTokens(d, tokens) && (tokens == [] ==> !change.Remove?)
    decreases |tokens|
  {
    hide Norm;
    if |tokens| == 1 && NChild(d, tokens[0]).Some? {
      assert ProperTokens(NChild(d, tokens[0]).value, tokens[1..]);
    } else if |tokens| > 1 {
      ChangedIsProper(NChild(d, tokens[0]).value, tokens[1..], change);
    }
  }

  /** A run in which everything is kept is one in which every patch does what RFC 6902 says. */
  lemma {:induction false} RunIsFollowing(doc: Tree, edits: seq<Edit>, keys: iset<Text>, caseSensitive: bool)
    requires Fine(Plain(doc), keys) && Safe(keys) && AllSafe(edits, keys) && ChangedAll(Norm(Plain(doc)), edits).Some?
    ensures Run(doc, edits, caseSensitive).Some? <==> Follows(doc, Alters(edits), caseSensitive)
    decreases |edits|
  {
    hide Norm, Fine, Safe, SafeEdit, ApplyTree, Keeps, Plain, PatchOf, Changed, Encode, ProperTokens;
    if edits != [] {
      var e, rs := edits[0], Alters(edits);
      assert rs[1..] == Alters(edits[1..]);
      ChangedIsProper(Norm(Plain(doc)), e.tokens, e.change);
      RequestIsAsked(doc, rs[0], keys, caseSensitive);
      var d := RunOne(doc, e, caseSensitive);
      if d.Some? {
        RunIsFollowing(d.value, edits[1..], keys, caseSensitive);
      }
    }
  }

  lemma RootReplaced(doc: Tree, v: Value, caseSensitive: bool)
    ensures Run(doc, [Edit([], Replace(v))], caseSensitive) == Some(Fresh(v))
  {
    hide GetMember, DecodeOperation, PatchOf, Fresh, Plain;
    var e := Edit([], Replace(v));
    PatchFields(Encode([]), e.change, caseSensitive);
    NoTokens();
    RunSingle(doc, e, caseSensitive);
  }

  /** Applied to the document that they were generated from, and that generating has sorted, generated patches do step
      by step what RFC 6902 says exactly if the document fits; then they return 0 and leave the later document. */
  lemma PatchItselfExactly(from: Tree, to: Tree, keys: iset<Text>, caseSensitive: bool)
    requires Fine(Plain(from), keys) && Fine(Plain(to), keys) && Safe(keys)
    ensures var doc, edits := Walked(from, to, caseSensitive).a, Edits(Plain(from), Plain(to), caseSensitive);
            && (Follows(doc, Alters(edits), caseSensitive) <==> Fits(from, to, caseSensitive))
            && (Fits(from, to, caseSensitive) ==>
                  var e := ApplyTreeAll(doc, Documents([], edits), caseSensitive);
                  e.Effect? && e.status == 0 && Norm(Plain(e.document)) == Norm(Plain(to)))
  {
    var doc, edits := Walked(from, to, caseSensitive).a, Edits(Plain(from), Plain(to), caseSensitive);
    EditsShape(Plain(from), Plain(to), caseSensitive);
    SafeSeparates(keys, caseSensitive);
    WalkedStill(from, to, keys, caseSensitive);
    EditsReach(Plain(from), Plain(to), keys, caseSensitive);
    EditsAreSafe(Plain(from), Plain(to), keys, caseSensitive);
    hide Walked, Edits, Norm, Fine, Safe, Plain, Run, Follows, AllSafe, ChangedAll, ApplyTreeAll, Documents, Replaces;
    RunIsFollowing(doc, edits, keys, caseSensitive);
    if Replaces(Plain(from), Plain(to)) {
      RootReplaced(doc, Plain(to), caseSensitive);
      ReplacedFits(from, to, caseSensitive);
    } else {
      InPlace(from, to, keys, caseSensitive);
    }
    hide Fits;
    if Run(doc, edits, caseSensitive).Some? {
      RunIsChange(doc, edits, keys, caseSensitive);
    }
  }

  /** So it does if there was nothing to sort. */
  lemma {:induction false} SettledFits(a: Tree, b: Tree, caseSensitive: bool)
    requires Settled(a, caseSensitive)
    ensures Fits(a, b, caseSensitive)
    decreases a
  {
    if !Replaces(Plain(a), Plain(b)) {
      match a {
        case Leaf(_) =>
        case List(items) =>
          forall i | 0 <= i < |items| && i < |b.items| ensures Fits(items[i], b.items[i], caseSensitive) {
            SettledFits(items[i], b.items[i], caseSensitive);
          }
        case Group(ms, tail) =>
          GroupIsSettled(ms, tail, caseSensitive);
          SettledGroup(ms, tail, caseSensitive);
          hide Sort, Order, AfterSort, Settled, StrictlySorted, AddedBehind, Right, Shared;
          var to := Sort(b.members, caseSensitive);
          forall i, j | 0 <= i < |ms| && 0 <= j < |to| ensures Fits(ms[i].value, to[j].value, caseSensitive) {
            SettledFits(ms[i].value, to[j].value, caseSensitive);
          }
      }
    }
  }

  lemma PairArranged(x: Text, y: Text, caseSensitive: bool)
    requires CompareStrings(x, y, caseSensitive) > 0
    ensures Arranged(Flat([x, y]), At(1), caseSensitive) == (Flat([y, x]), Nothing)
  {
    PairSorted(x, y, caseSensitive);
    PairSwapped(x, y, caseSensitive);
    hide CompareStrings, Sort, Order, AfterSort, Flat;
  }

  lemma PairDoesNotFit(x: Text, y: Text, z: Text, caseSensitive: bool)
    requires CompareStrings(y, x, caseSensitive) < 0 && CompareStrings(x, z, caseSensitive) < 0 && z != x && z != y
    ensures !Fits(Group(Flat([x, y]), At(1)), Group(Flat([y, x, z]), At(2)), caseSensitive)
  {
    hide CompareStrings, Sort, Order, AfterSort, StrictlySorted, Arranged, Fits, AddedBehind;
    CompareThrough(x, y, y, caseSensitive);
    PairArranged(x, y, caseSensitive);
    ThreeInOrder(Flat([y, x, z]), caseSensitive);
    InOrderStays(Flat([y, x, z]), caseSensitive);
    AddedInFront(Flat([y, x]), Flat([y, x, z]), caseSensitive);
    FitsOfGroup(Flat([x, y]), At(1), Group(Flat([y, x, z]), At(2)), caseSensitive);
  }

  lemma ThreeInOrder(ms: seq<Keyed<Tree>>, caseSensitive: bool)
    requires |ms| == 3 && CompareStrings(ms[0].key, ms[1].key, caseSensitive) < 0
    requires CompareStrings(ms[1].key, ms[2].key, caseSensitive) < 0
    ensures StrictlySorted(ms, caseSensitive)
  {
    hide CompareStrings;
  }

  lemma AddedInFront(a: seq<Keyed<Tree>>, b: seq<Keyed<Tree>>, caseSensitive: bool)
    requires |a| == 2 && |b| == 3 && a[0].key != b[2].key && a[1].key != b[2].key && Shared(a[1], b[1])
    ensures !AddedBehind(a, b, caseSensitive)
  {
    hide CompareStrings, Replaces;
    assert Appears(a, b, 2) && !Vanishes(a, b, 1);
  }

  lemma NamesAreSafe() returns (keys: iset<Text>)
    ensures Safe(keys) && "a" in keys && "b" in keys && "c" in keys
  {
    hide Patchable;
    var names := iset{"a", "b", "c"};
    PlainNamesArePatchable(names);
    PatchableIsSafe(names);
    keys := WithArrayTokens(names);
  }

  lemma AbcInOrder(caseSensitive: bool)
    ensures CompareStrings("a", "b", caseSensitive) < 0 && CompareStrings("b", "c", caseSensitive) < 0
  {
    assert Fold("a", caseSensitive)[0] == 'a' && Fold("b", caseSensitive)[0] == 'b';
    assert Fold("c", caseSensitive)[0] == 'c';
  }

  lemma AbcFresh()
    ensures Fresh(Object([Keyed("a", Null), Keyed("b", Null), Keyed("c", Null)])) == Group(Flat(["a", "b", "c"]), At(2))
  {}

  /** The patch generated from `{"b": null, "a": null}` for one more member `c` does not add it there. */
  lemma GeneratedIsLost(caseSensitive: bool)
    ensures var from, to := Object([Keyed("b", Null), Keyed("a", Null)]),
                            Object([Keyed("a", Null), Keyed("b", Null), Keyed("c", Null)]);
            && !Fits(Fresh(from), Fresh(to), caseSensitive)
            && !Follows(Walked(Fresh(from), Fresh(to), caseSensitive).a, Alters(Edits(from, to, caseSensitive)),
                        caseSensitive)
  {
    var pair, triple := [Keyed("b", Null), Keyed("a", Null)], [Keyed("a", Null), Keyed("b", Null), Keyed("c", Null)];
    hide Safe, CompareStrings, Fits, Follows, Walked, Edits, Alters, Flat, Fine, Fresh;
    AbcInOrder(caseSensitive);
    var keys := NamesAreSafe();
    assert "b" != "a" && "c" != "a" && "c" != "b";
    FlatObjectIsFine(pair, keys);
    FlatObjectIsFine(triple, keys);
    FreshPair("b", "a");
    AbcFresh();
    PairDoesNotFit("b", "a", "c", caseSensitive);
    PatchItselfExactly(Fresh(Object(pair)), Fresh(Object(triple)), keys, caseSensitive);
  }
}
