/** `sort_list`: the merge sort that relinks a sibling list in place. */
module SortList {
  import opened Bytes
  import opened Json
  import opened KeyedSort
  import opened ListTail
  import opened SiblingList

  /** `s` runs along `next` to a null, and `prev` is right for every node but the head. */
  ghost predicate Chain(s: seq<Item>)
    reads s
  {
    Distinct(s) && Ends(s) && Links(s)
  }

  ghost predicate Ends(s: seq<Item>)
    reads s
  {
    s != [] ==> s[|s| - 1].next == null
  }

  ghost predicate Links(s: seq<Item>)
    reads s
  {
    && (forall i {:trigger s[i].next} :: 0 <= i < |s| - 1 ==> s[i].next == s[i + 1])
    && (forall i {:trigger s[i].prev} :: 0 < i < |s| ==> s[i].prev == s[i - 1])
  }

  ghost function Head(s: seq<Item>): Item? {
    if s == [] then null else s[0]
  }

  ghost function Named(s: seq<Item>): (r: seq<Keyed<Item>>)
    reads s`name
    ensures |r| == |s| && forall i :: 0 <= i < |s| ==> r[i] == Keyed(s[i].name, s[i])
  {
    if s == [] then [] else [Keyed(s[0].name, s[0])] + Named(s[1..])
  }

  /** Is the list strictly increasing already? */
  method IsStrictlySorted(list: Item, caseSensitive: bool, ghost s: seq<Item>) returns (sorted: bool)
    requires Chain(s) && s != [] && list == s[0]
    ensures sorted == StrictlySorted(Named(s), caseSensitive)
  {
    hide CompareStrings;
    var current_item: Item? := list;
    ghost var k := 0;
    while current_item != null && current_item.next != null
          && CompareStrings(current_item.name, current_item.next.name, caseSensitive) < 0
      invariant 0 <= k < |s| && current_item == s[k]
      invariant forall i :: 0 < i <= k ==> Compare(Named(s)[i - 1], Named(s)[i], caseSensitive) < 0
      decreases |s| - k
    {
      current_item := current_item.next;
      k := k + 1;
    }
    sorted := current_item == null || current_item.next == null;
    if !sorted {
      assert Compare(Named(s)[k], Named(s)[k + 1], caseSensitive) >= 0;
    }
  }

  /** The walk with two pointers: a list of two or more is split into two non-empty, shorter halves. */
  method FindMiddle(list: Item, ghost s: seq<Item>) returns (second: Item?)
    requires Chain(s) && |s| > 1 && list == s[0]
    ensures 0 < Middle(|s|) < |s| && second == s[Middle(|s|)]
  {
    second := list;
    var current_item: Item? := list;
    ghost var k := 0;
    while current_item != null
      invariant 0 <= k <= Middle(|s|) < |s| && second == s[k]
      invariant current_item == if 2 * k < |s| then s[2 * k] else null
      decreases |s| - k
    {
      second := second.next;
      current_item := current_item.next;
      if current_item != null {
        current_item := current_item.next;
      }
      k := k + 1;
    }
  }

  /** Cutting the list in front of `second`. */
  method Split(second: Item, ghost s: seq<Item>, ghost m: nat)
    requires Chain(s) && 0 < m < |s| && second == s[m]
    modifies {s[m - 1]}`next, second`prev
    ensures Chain(s[..m]) && Chain(s[m..]) && second.prev == null
  {
    if second.prev != null {
      second.prev.next := null;
      second.prev := null;
    }
  }

  ghost predicate Disjoint(s: seq<Item>, t: seq<Item>) {
    forall i, j :: 0 <= i < |s| && 0 <= j < |t| ==> s[i] != t[j]
  }

  /** In the middle of a merge: `r` is linked up, `a` and `b` are the chains still to be merged. */
  ghost predicate Merging(r: seq<Item>, a: seq<Item>, b: seq<Item>)
    reads r, a, b
  {
    && Distinct(r) && Links(r) && Chain(a) && Chain(b)
    && Disjoint(r, a) && Disjoint(r, b) && Disjoint(a, b)
  }

  lemma MergingSymmetric(r: seq<Item>, a: seq<Item>, b: seq<Item>)
    requires Merging(r, a, b)
    ensures Merging(r, b, a)
  {}

  ghost function Final(r: seq<Item>): Item? {
    if r == [] then null else r[|r| - 1]
  }

  lemma Ending(r: seq<Item>)
    ensures Head(r) == (if r == [] then null else r[0]) && Head([]) == null
    ensures Final(r) == (if r == [] then null else r[|r| - 1]) && Final([]) == null
  {}

  /** Adding the smaller head to the merged list. */
  method Append(result: Item?, result_tail: Item?, smaller: Item, ghost r: seq<Item>, ghost a: seq<Item>,
                ghost b: seq<Item>)
    returns (result': Item, result_tail': Item)
    requires Merging(r, a, b) && a != [] && smaller == a[0] && result == Head(r) && result_tail == Final(r)
    modifies Last(r)`next, smaller`prev
    ensures Merging(r + [smaller], a[1..], b)
    ensures result' == Head(r + [smaller]) && result_tail' == smaller
    ensures smaller.next == Head(a[1..])
    ensures result'.prev == old(result'.prev)
  {
    if result == null {
      result_tail' := smaller;
      result' := smaller;
    } else {
      result_tail.next := smaller;
      smaller.prev := result_tail;
      result_tail' := smaller;
      result' := result;
    }
  }

  /** Appending the rest of the one list when the other is used up. */
  method AppendRest(result_tail: Item, rest: Item, ghost r: seq<Item>, ghost a: seq<Item>)
    requires Merging(r, a, []) && r != [] && a != [] && rest == a[0] && result_tail == Final(r)
    modifies result_tail`next, rest`prev
    ensures Chain(r + a) && r[0].prev == old(r[0].prev)
  {
    result_tail.next := rest;
    rest.prev := result_tail;
  }

  ghost predicate Within(s: seq<Item>, nodes: set<Item>) {
    forall i :: 0 <= i < |s| ==> s[i] in nodes
  }

  lemma WithinAppend(r: seq<Item>, a: seq<Item>, nodes: set<Item>)
    ensures Within(r, nodes) && Within(a, nodes) ==> Within(r + a, nodes) && Last(r) <= nodes && First(a) <= nodes
    ensures Within([], nodes)
  {}

  lemma WithinStep(r: seq<Item>, a: seq<Item>, nodes: set<Item>)
    requires Within(r, nodes) && Within(a, nodes) && a != []
    ensures Within(r + [a[0]], nodes) && Within(a[1..], nodes)
    ensures a[0] in nodes && Last(r) <= nodes
  {}

  /** One round of the merge loop. */
  method TakeSmaller(first: Item, second: Item, result: Item?, result_tail: Item?, caseSensitive: bool,
                     ghost r: seq<Item>, ghost a: seq<Item>, ghost b: seq<Item>, ghost nodes: set<Item>)
    returns (first': Item?, second': Item?, result': Item?, result_tail': Item?,
             ghost r': seq<Item>, ghost a': seq<Item>, ghost b': seq<Item>)
    requires Merging(r, a, b) && Within(r, nodes) && Within(a, nodes) && Within(b, nodes)
    requires a != [] && b != [] && first == a[0] && second == b[0] && result == Head(r) && result_tail == Final(r)
    modifies nodes`next, nodes`prev
    ensures Merging(r', a', b') && Within(r', nodes) && Within(a', nodes) && Within(b', nodes)
    ensures first' == Head(a') && second' == Head(b') && result' == Head(r') && result_tail' == Final(r')
    ensures r' != [] && (a' != [] || b' != []) && |a'| + |b'| < |a| + |b|
    ensures (if r != [] then r'[0] == r[0] else r'[0] == a[0] || r'[0] == b[0]) && r'[0].prev == old(r'[0].prev)
    ensures Named(r') + Merge(Named(a'), Named(b'), caseSensitive)
         == Named(r) + Merge(Named(a), Named(b), caseSensitive)
  {
    hide CompareStrings, Named, Merge, Merging, Within;
    NamedStep(r, a, b, caseSensitive);
    WithinStep(r, a, nodes);
    WithinStep(r, b, nodes);
    if CompareStrings(first.name, second.name, caseSensitive) < 0 {
      result', result_tail' := Append(result, result_tail, first, r, a, b);
      r', a', b' := r + [first], a[1..], b;
      first', second' := first.next, second;
    } else {
      MergingSymmetric(r, a, b);
      result', result_tail' := Append(result, result_tail, second, r, b, a);
      r', a', b' := r + [second], a, b[1..];
      MergingSymmetric(r', b', a');
      first', second' := first, second.next;
    }
  }

  /** Behind the merge loop, one of the lists is left over. */
  method FinishMerge(first: Item?, second: Item?, result_tail: Item,
                     ghost r: seq<Item>, ghost a: seq<Item>, ghost b: seq<Item>, ghost nodes: set<Item>)
    returns (ghost all: seq<Item>)
    requires Merging(r, a, b) && Within(r, nodes) && Within(a, nodes) && Within(b, nodes)
    requires first == Head(a) && second == Head(b) && r != [] && result_tail == Final(r)
    requires (a == []) != (b == [])
    modifies nodes`next, nodes`prev
    ensures all == r + a + b && Chain(all) && Within(all, nodes) && Head(all) == Head(r)
    ensures r[0].prev == old(r[0].prev)
  {
    hide Merging, Chain, Within;
    all := r + a + b;
    WithinAppend(r, a, nodes);
    WithinAppend(r, b, nodes);
    if first != null {
      assert all == r + a;
      AppendRest(result_tail, first, r, a);
    }
    if second != null {
      MergingSymmetric(r, a, b);
      assert all == r + b;
      AppendRest(result_tail, second, r, b);
    }
  }

  method MergeLists(list1: Item, list2: Item, caseSensitive: bool, ghost s: seq<Item>, ghost t: seq<Item>,
                    ghost nodes: set<Item>)
    returns (result: Item?, ghost r: seq<Item>)
    requires Merging([], s, t) && s != [] && t != [] && list1 == s[0] && list2 == t[0]
    requires Within(s, nodes) && Within(t, nodes)
    modifies nodes`next, nodes`prev
    ensures Chain(r) && result == Head(r) && Within(r, nodes)
    ensures Named(r) == Merge(Named(s), Named(t), caseSensitive)
    ensures r != [] && (r[0] == s[0] || r[0] == t[0]) && r[0].prev == old(r[0].prev)
  {
    hide *;
    WithinAppend([], [], nodes);
    Ending(s);
    Ending(t);
    var first: Item?, second: Item? := list1, list2;
    var result_tail: Item? := null;
    result, r := null, [];
    ghost var a, b := s, t;
    NamedStart(s, t, caseSensitive);
    ghost var goal := Merge(Named(s), Named(t), caseSensitive);
    while first != null && second != null
      invariant Merging(r, a, b) && Within(r, nodes) && Within(a, nodes) && Within(b, nodes)
      invariant first == Head(a) && second == Head(b) && result == Head(r) && result_tail == Final(r)
      invariant (a == [] || b == [] ==> r != []) && (a != [] || b != [])
      invariant Named(r) + Merge(Named(a), Named(b), caseSensitive) == goal
      invariant r == [] ==> a == s && b == t && s[0].prev == old(s[0].prev) && t[0].prev == old(t[0].prev)
      invariant r != [] ==> (r[0] == s[0] || r[0] == t[0]) && r[0].prev == old(r[0].prev)
      decreases |a| + |b|
    {
      Ending(a);
      Ending(b);
      first, second, result, result_tail, r, a, b := TakeSmaller(first, second, result, result_tail, caseSensitive, r,
                                                                 a, b, nodes);
    }
    Ending(a);
    Ending(b);
    Ending(r);
    NamedEnd(r, a, b, caseSensitive);
    r := FinishMerge(first, second, result_tail, r, a, b, nodes);
  }

  lemma NamedStart(s: seq<Item>, t: seq<Item>, caseSensitive: bool)
    ensures Named([]) + Merge(Named(s), Named(t), caseSensitive) == Merge(Named(s), Named(t), caseSensitive)
  {}

  lemma NamedStep(r: seq<Item>, a: seq<Item>, b: seq<Item>, caseSensitive: bool)
    requires a != [] && b != []
    ensures var all := Named(r) + Merge(Named(a), Named(b), caseSensitive);
            if CompareStrings(a[0].name, b[0].name, caseSensitive) < 0
            then all == Named(r + [a[0]]) + Merge(Named(a[1..]), Named(b), caseSensitive)
            else all == Named(r + [b[0]]) + Merge(Named(a), Named(b[1..]), caseSensitive)
  {
    hide CompareStrings, Named;
    var x, y := Keyed(a[0].name, a[0]), Keyed(b[0].name, b[0]);
    assert Named(a) == [x] + Named(a[1..]) && Named(b) == [y] + Named(b[1..]);
    assert Named(r + [a[0]]) == Named(r) + [x] && Named(r + [b[0]]) == Named(r) + [y];
    MergeStep(Named(r), x, Named(a[1..]), y, Named(b[1..]), caseSensitive);
  }

  lemma MergeStep<T>(r: seq<Keyed<T>>, x: Keyed<T>, a: seq<Keyed<T>>, y: Keyed<T>, b: seq<Keyed<T>>,
                     caseSensitive: bool)
    ensures r + Merge([x] + a, [y] + b, caseSensitive)
         == if Compare(x, y, caseSensitive) < 0 then (r + [x]) + Merge(a, [y] + b, caseSensitive)
            else (r + [y]) + Merge([x] + a, b, caseSensitive)
  {
    hide Compare;
    var l, m := [x] + a, [y] + b;
    assert l[0] == x && m[0] == y && l[1..] == a && m[1..] == b;
    if Compare(x, y, caseSensitive) < 0 {
      assert Merge(l, m, caseSensitive) == [x] + Merge(a, m, caseSensitive);
      Shift(r, x, Merge(a, m, caseSensitive));
    } else {
      assert Merge(l, m, caseSensitive) == [y] + Merge(l, b, caseSensitive);
      Shift(r, y, Merge(l, b, caseSensitive));
    }
  }

  lemma Shift<T>(r: seq<T>, x: T, rest: seq<T>)
    ensures r + ([x] + rest) == (r + [x]) + rest
  {}

  lemma NamedEnd(r: seq<Item>, a: seq<Item>, b: seq<Item>, caseSensitive: bool)
    requires a == [] || b == []
    ensures Named(r) + Merge(Named(a), Named(b), caseSensitive) == Named(r + a + b)
  {
    NamedAppend(r, a);
    NamedAppend(r + a, b);
    assert r + a + [] == r + a && r + [] == r;
  }

  lemma NamedAppend(r: seq<Item>, s: seq<Item>)
    ensures Named(r + s) == Named(r) + Named(s)
  {
    hide Named;
  }

  /** `sort_list`, on a list whose nodes are all among `nodes`: the result is the same nodes in sorted order, ended by a
      null, with `prev` right for every node but the head; nothing but their `next` and `prev` changes. A head that was
      the head before keeps its `prev`, and any other has been cut off and has none. */
  method Sort(list: Item?, caseSensitive: bool, ghost s: seq<Item>, ghost nodes: set<Item>)
    returns (result: Item?, ghost r: seq<Item>)
    requires Chain(s) && list == Head(s) && Within(s, nodes)
    modifies nodes`next, nodes`prev
    ensures Chain(r) && result == Head(r) && Within(r, nodes)
    ensures Named(r) == KeyedSort.Sort(Named(s), caseSensitive)
    ensures (s == [] <==> r == []) && (r != [] ==> r[0].prev == if r[0] == s[0] then old(s[0].prev) else null)
    decreases |s|, 1
  {
    hide StrictlySorted, Named, Merge;
    result, r := list, s;
    if list == null || list.next == null {
      return;
    }
    var sorted := IsStrictlySorted(list, caseSensitive, s);
    if sorted {
      return;
    }
    hide Links, Ends, Chain, Merging, Within;
    NamedSlices(s, Middle(|s|));
    var first, second;
    ghost var r1, r2;
    first, second, r1, r2 := SortHalves(list, caseSensitive, s, nodes);
    result, r := MergeLists(first, second, caseSensitive, r1, r2, nodes);
  }

  method SortHalves(list: Item, caseSensitive: bool, ghost s: seq<Item>, ghost nodes: set<Item>)
    returns (first: Item, second: Item, ghost r1: seq<Item>, ghost r2: seq<Item>)
    requires Chain(s) && |s| > 1 && list == s[0] && Within(s, nodes)
    modifies nodes`next, nodes`prev
    ensures r1 != [] && r2 != [] && first == r1[0] && second == r2[0]
    ensures Merging([], r1, r2) && Within(r1, nodes) && Within(r2, nodes)
    ensures Named(r1) == KeyedSort.Sort(Named(s[..Middle(|s|)]), caseSensitive)
    ensures Named(r2) == KeyedSort.Sort(Named(s[Middle(|s|)..]), caseSensitive)
    ensures r1[0].prev == (if r1[0] == s[0] then old(s[0].prev) else null) && r2[0].prev == null && r2[0] != s[0]
    decreases |s|, 0
  {
    hide Named, KeyedSort.Sort, Chain, Within, Merging;
    ghost var m := Middle(|s|);
    var middle := FindMiddle(list, s);
    ghost var nodes1, nodes2 := SplitNodes(s, m, nodes);
    Split(middle, s, m);
    var head, head2;
    head, r1 := Sort(list, caseSensitive, s[..m], nodes1);
    ChainFrame(r1, nodes1);
    head2, r2 := Sort(middle, caseSensitive, s[m..], nodes2);
    assert |r1| == |Named(r1)| == m && |r2| == |Named(r2)| == |s| - m;
    HalvesMerge(r1, r2, nodes1, nodes2, nodes);
    first, second := head, head2;
  }

  /** Where the items of a list go when it is sorted. */
  ghost function Places(s: seq<Item>, caseSensitive: bool): seq<nat>
    reads s`name
  {
    Order(Keys(Named(s)), caseSensitive)
  }

  lemma SortedByPlaces(s: seq<Item>, r: seq<Item>, caseSensitive: bool)
    requires Named(r) == KeyedSort.Sort(Named(s), caseSensitive)
    ensures Permutation(Places(s, caseSensitive)) && |r| == |s| == |Places(s, caseSensitive)|
    ensures forall j :: 0 <= j < |s| ==> r[j] == s[Places(s, caseSensitive)[j]]
  {
    hide KeyedSort.Sort, Order, Keys, Named;
    SortIsOrder(Named(s), caseSensitive);
    var places := Places(s, caseSensitive);
    forall j | 0 <= j < |s| ensures r[j] == s[places[j]] {
      assert Named(r)[j] == Named(s)[places[j]];
      assert places[j] < |s|;
    }
  }

  /** A pointer at an item points at the same item where it has gone. */
  lemma PointedSorted(s: seq<Item>, r: seq<Item>, places: seq<nat>, p: Item?)
    requires Distinct(s) && Permutation(places) && |r| == |s| == |places|
    requires forall j :: 0 <= j < |s| ==> r[j] == s[places[j]]
    ensures Pointed(r, p) == Moved(Pointed(s, p), places)
  {
    if p in s {
      var k: nat :| k < |s| && s[k] == p;
      PointedAt(s, k);
      var j := Position(places, k);
      PointedAt(r, j);
    }
  }

  /** A first item that was the first keeps what it points at, and any other points nowhere. */
  lemma TailSorted(s: seq<Item>, r: seq<Item>, places: seq<nat>, p: Item?)
    requires Distinct(s) && Permutation(places) && |r| == |s| == |places| && s != []
    requires forall j :: 0 <= j < |s| ==> r[j] == s[places[j]]
    ensures Pointed(r, if r[0] == s[0] then p else null) == AfterSort(Pointed(s, p), places)
  {
    hide Moved, Pointed;
    PointedSorted(s, r, places, p);
    PointedNothing(r);
  }

  lemma PointedNothing(r: seq<Item>)
    ensures Pointed(r, null) == Nothing
  {}

  /** `sort_object`, also on an object whose first child has a wrong `prev`. Of a proper sibling list it leaves a proper
      one exactly if the first child and the last one stay in their places. */
  method SortObject(owner: Item, caseSensitive: bool, ghost s: seq<Item>, ghost nodes: set<Item>)
    returns (ghost r: seq<Item>)
    requires Headed(owner, s) && Within(s, nodes) && owner !in nodes
    modifies owner`child, nodes`next, nodes`prev
    ensures Headed(owner, r) && multiset(r) == multiset(s)
    ensures Named(r) == KeyedSort.Sort(Named(s), caseSensitive) && KeyedSort.Sorted(Named(r), caseSensitive)
    ensures TailOf(r) == AfterSort(old(TailOf(s)), Places(s, caseSensitive))
    ensures old(IsList(owner, s)) ==>
              (IsList(owner, r) <==> s == [] || (r[0] == s[0] && r[|r| - 1] == s[|s| - 1]))
  {
    hide KeyedSort.Sort, Named, KeyedSort.Sorted, StrictlySorted, Pointed, AfterSort, Permutation, Places;
    ghost var p := if s == [] then null else s[0].prev;
    var child;
    child, r := Sort(owner.child, caseSensitive, s, nodes);
    owner.child := child;
    SortIsSorted(Named(s), caseSensitive);
    SameItems(s, r, caseSensitive);
    SortedByPlaces(s, r, caseSensitive);
    if s != [] {
      TailSorted(s, r, Places(s, caseSensitive), p);
    } else {
      NothingSorted(caseSensitive);
    }
  }

  lemma NothingSorted(caseSensitive: bool)
    ensures AfterSort(TailOf([]), Places([], caseSensitive)) == Nothing
  {
    hide Order;
  }

  lemma SplitNodes(s: seq<Item>, m: nat, nodes: set<Item>) returns (nodes1: set<Item>, nodes2: set<Item>)
    requires Chain(s) && m < |s| && Within(s, nodes)
    ensures nodes1 !! nodes2 && nodes1 <= nodes && nodes2 <= nodes
    ensures Within(s[..m], nodes1) && Within(s[m..], nodes2)
    ensures m > 0 ==> s[m - 1] in nodes && s[0] in nodes1
    ensures s[m] in nodes
  {
    nodes1, nodes2 := set i | 0 <= i < m :: s[i], set i | m <= i < |s| :: s[i];
  }

  lemma ChainFrame(r: seq<Item>, nodes: set<Item>)
    requires Within(r, nodes)
    ensures forall x :: x in r ==> x in nodes
  {}

  lemma HalvesMerge(r1: seq<Item>, r2: seq<Item>, nodes1: set<Item>, nodes2: set<Item>, nodes: set<Item>)
    requires Chain(r1) && Chain(r2) && Within(r1, nodes1) && Within(r2, nodes2)
    requires nodes1 !! nodes2 && nodes1 <= nodes && nodes2 <= nodes
    ensures Merging([], r1, r2) && Within(r1, nodes) && Within(r2, nodes)
    ensures r2 != [] ==> r2[0] in nodes2
  {}

  lemma NamedSlices(s: seq<Item>, m: nat)
    requires m <= |s|
    ensures Named(s)[..m] == Named(s[..m]) && Named(s)[m..] == Named(s[m..])
  {
    hide Named;
  }

  ghost function Values(r: seq<Keyed<Item>>): seq<Item> {
    if r == [] then [] else [r[0].value] + Values(r[1..])
  }

  lemma {:induction false} ValuesOfNamed(s: seq<Item>)
    ensures Values(Named(s)) == s
  {
    if s != [] {
      assert Named(s)[1..] == Named(s[1..]);
      ValuesOfNamed(s[1..]);
    }
  }

  lemma {:induction false} ValuesAppend(a: seq<Keyed<Item>>, b: seq<Keyed<Item>>)
    ensures Values(a + b) == Values(a) + Values(b)
  {
    if a == [] {
      assert a + b == b;
    } else {
      assert (a + b)[1..] == a[1..] + b;
      ValuesAppend(a[1..], b);
    }
  }

  lemma TakeOut<T>(b: seq<T>, k: nat)
    requires k < |b|
    ensures multiset(b) == multiset{b[k]} + multiset(b[..k] + b[k + 1..])
  {
    assert b == b[..k] + [b[k]] + b[k + 1..];
  }

  lemma ValuesTakeOut(b: seq<Keyed<Item>>, k: nat)
    requires k < |b|
    ensures multiset(Values(b)) == multiset{b[k].value} + multiset(Values(b[..k] + b[k + 1..]))
  {
    hide Values;
    var front, rest := b[..k], b[k + 1..];
    assert b == front + ([b[k]] + rest);
    ValuesAppend(front, [b[k]] + rest);
    ValuesAppend(front, rest);
    ValuesCons(b[k], rest);
    CountMiddle(Values(front), b[k].value, Values(rest));
  }

  lemma ValuesCons(x: Keyed<Item>, rest: seq<Keyed<Item>>)
    ensures Values([x] + rest) == [x.value] + Values(rest)
  {
    assert ([x] + rest)[1..] == rest;
  }

  lemma CountMiddle<T>(x: seq<T>, m: T, y: seq<T>)
    ensures multiset(x + ([m] + y)) == multiset{m} + multiset(x + y)
  {}

  lemma {:induction false} ValuesPermute(a: seq<Keyed<Item>>, b: seq<Keyed<Item>>)
    requires multiset(a) == multiset(b)
    ensures multiset(Values(a)) == multiset(Values(b))
    decreases |a|
  {
    hide Values;
    if a == [] {
      assert |multiset(b)| == 0;
    } else {
      assert a[0] in multiset(b);
      var k :| 0 <= k < |b| && b[k] == a[0];
      TakeOut(a, 0);
      TakeOut(b, k);
      ValuesTakeOut(a, 0);
      ValuesTakeOut(b, k);
      SameRest(multiset(a[..0] + a[1..]), multiset(b[..k] + b[k + 1..]), a[0]);
      ValuesPermute(a[..0] + a[1..], b[..k] + b[k + 1..]);
    }
  }

  lemma SameRest<T>(a: multiset<T>, b: multiset<T>, x: T)
    requires multiset{x} + a == multiset{x} + b
    ensures a == b
  {
    assert a == (multiset{x} + a) - multiset{x};
    assert b == (multiset{x} + b) - multiset{x};
  }

  /** Sorting neither loses, nor doubles, nor invents a node. */
  lemma SameItems(s: seq<Item>, r: seq<Item>, caseSensitive: bool)
    requires Named(r) == KeyedSort.Sort(Named(s), caseSensitive)
    ensures multiset(r) == multiset(s)
  {
    hide *;
    SortPermutes(Named(s), caseSensitive);
    ValuesPermute(Named(r), Named(s));
    ValuesOfNamed(s);
    ValuesOfNamed(r);
  }
}
