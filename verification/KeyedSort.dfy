/** The merge sort behind `sort_object`, on the sequence of keyed nodes that a sibling list denotes. */
module KeyedSort {
  import opened Bytes
  import opened Json
  import opened ListTail

  function Compare<T>(a: Keyed<T>, b: Keyed<T>, caseSensitive: bool): int {
    CompareStrings(a.key, b.key, caseSensitive)
  }

  predicate StrictlySorted<T>(s: seq<Keyed<T>>, caseSensitive: bool) {
    forall i :: 0 < i < |s| ==> Compare(s[i - 1], s[i], caseSensitive) < 0
  }

  ghost predicate Sorted<T>(s: seq<Keyed<T>>, caseSensitive: bool) {
    forall i, j :: 0 <= i < j < |s| ==> Compare(s[i], s[j], caseSensitive) <= 0
  }

  /** Ties are taken from the second list. */
  function Merge<T>(a: seq<Keyed<T>>, b: seq<Keyed<T>>, caseSensitive: bool): seq<Keyed<T>> {
    if a == [] then b
    else if b == [] then a
    else if Compare(a[0], b[0], caseSensitive) < 0 then [a[0]] + Merge(a[1..], b, caseSensitive)
    else [b[0]] + Merge(a, b[1..], caseSensitive)
  }

  /** Where the walk with two pointers of different speed splits a list. */
  function Middle(n: nat): nat {
    (n + 1) / 2
  }

  function Sort<T>(s: seq<Keyed<T>>, caseSensitive: bool): (r: seq<Keyed<T>>)
    ensures |r| == |s|
    decreases |s|
  {
    if |s| <= 1 || StrictlySorted(s, caseSensitive) then s else
    var m := Middle(|s|);
    var a, b := Sort(s[..m], caseSensitive), Sort(s[m..], caseSensitive);
    MergePermutes(a, b, caseSensitive);
    Merge(a, b, caseSensitive)
  }

  lemma {:induction false} MergePermutes<T>(a: seq<Keyed<T>>, b: seq<Keyed<T>>, caseSensitive: bool)
    ensures multiset(Merge(a, b, caseSensitive)) == multiset(a) + multiset(b)
    ensures |Merge(a, b, caseSensitive)| == |a| + |b|
  {
    hide Compare;
    if a != [] && b != [] {
      if Compare(a[0], b[0], caseSensitive) < 0 {
        MergePermutes(a[1..], b, caseSensitive);
        assert multiset(a) == multiset{a[0]} + multiset(a[1..]) by { assert a == [a[0]] + a[1..]; }
        assert Merge(a, b, caseSensitive) == [a[0]] + Merge(a[1..], b, caseSensitive);
      } else {
        MergePermutes(a, b[1..], caseSensitive);
        assert multiset(b) == multiset{b[0]} + multiset(b[1..]) by { assert b == [b[0]] + b[1..]; }
        assert Merge(a, b, caseSensitive) == [b[0]] + Merge(a, b[1..], caseSensitive);
      }
    }
  }

  lemma InHalves<T>(s: seq<T>, m: nat)
    requires m <= |s|
    ensures multiset(s) == multiset(s[..m]) + multiset(s[m..])
  {
    assert s == s[..m] + s[m..];
  }

  lemma SortInHalves<T>(s: seq<Keyed<T>>, caseSensitive: bool)
    requires |s| > 1 && !StrictlySorted(s, caseSensitive)
    ensures var m := Middle(|s|);
            Sort(s, caseSensitive) == Merge(Sort(s[..m], caseSensitive), Sort(s[m..], caseSensitive), caseSensitive)
  {
    hide StrictlySorted, Merge;
  }

  lemma {:induction false} SortPermutes<T>(s: seq<Keyed<T>>, caseSensitive: bool)
    ensures multiset(Sort(s, caseSensitive)) == multiset(s)
    decreases |s|
  {
    if |s| > 1 && !StrictlySorted(s, caseSensitive) {
      var m := Middle(|s|);
      SortInHalves(s, caseSensitive);
      hide Sort, Merge, StrictlySorted;
      SortPermutes(s[..m], caseSensitive);
      SortPermutes(s[m..], caseSensitive);
      MergePermutes(Sort(s[..m], caseSensitive), Sort(s[m..], caseSensitive), caseSensitive);
      InHalves(s, m);
    }
  }

  lemma CompareTransitive<T>(a: Keyed<T>, b: Keyed<T>, c: Keyed<T>, caseSensitive: bool)
    requires Compare(a, b, caseSensitive) <= 0 && Compare(b, c, caseSensitive) <= 0
    ensures Compare(a, c, caseSensitive) <= 0
    ensures Compare(a, b, caseSensitive) < 0 || Compare(b, c, caseSensitive) < 0 ==> Compare(a, c, caseSensitive) < 0
  {
    StrCmpTransitive(Fold(a.key, caseSensitive), Fold(b.key, caseSensitive), Fold(c.key, caseSensitive));
  }

  lemma CompareConnected<T>(a: Keyed<T>, b: Keyed<T>, caseSensitive: bool)
    ensures Compare(a, b, caseSensitive) >= 0 ==> Compare(b, a, caseSensitive) <= 0
  {
    StrCmpAntisymmetric(Fold(a.key, caseSensitive), Fold(b.key, caseSensitive));
  }

  /** `x` goes before everything in `s`. */
  ghost predicate Below<T>(x: Keyed<T>, s: seq<Keyed<T>>, caseSensitive: bool) {
    forall y :: y in s ==> Compare(x, y, caseSensitive) <= 0
  }

  lemma SortedHead<T>(s: seq<Keyed<T>>, caseSensitive: bool)
    requires s != [] && Sorted(s, caseSensitive)
    ensures Below(s[0], s[1..], caseSensitive) && Sorted(s[1..], caseSensitive)
  {}

  lemma SortedCons<T>(x: Keyed<T>, s: seq<Keyed<T>>, caseSensitive: bool)
    requires Sorted(s, caseSensitive) && Below(x, s, caseSensitive)
    ensures Sorted([x] + s, caseSensitive)
  {
    forall i, j | 0 <= i < j < |[x] + s| ensures Compare(([x] + s)[i], ([x] + s)[j], caseSensitive) <= 0 {
      if i > 0 {
        assert ([x] + s)[i] == s[i - 1] && ([x] + s)[j] == s[j - 1];
      } else {
        assert ([x] + s)[j] == s[j - 1] && s[j - 1] in s;
      }
    }
  }

  lemma BelowAll<T>(x: Keyed<T>, y: Keyed<T>, s: seq<Keyed<T>>, caseSensitive: bool)
    requires Compare(x, y, caseSensitive) <= 0 && Below(y, s, caseSensitive)
    ensures Below(x, s, caseSensitive)
  {
    forall z | z in s ensures Compare(x, z, caseSensitive) <= 0 {
      CompareTransitive(x, y, z, caseSensitive);
    }
  }

  lemma BelowMerge<T>(x: Keyed<T>, a: seq<Keyed<T>>, b: seq<Keyed<T>>, caseSensitive: bool)
    requires Below(x, a, caseSensitive) && Below(x, b, caseSensitive)
    ensures Below(x, Merge(a, b, caseSensitive), caseSensitive)
  {
    MergePermutes(a, b, caseSensitive);
    forall y | y in Merge(a, b, caseSensitive) ensures Compare(x, y, caseSensitive) <= 0 {
      assert y in multiset(Merge(a, b, caseSensitive));
    }
  }

  lemma {:induction false} MergeSorted<T>(a: seq<Keyed<T>>, b: seq<Keyed<T>>, caseSensitive: bool)
    requires Sorted(a, caseSensitive) && Sorted(b, caseSensitive)
    ensures Sorted(Merge(a, b, caseSensitive), caseSensitive)
    decreases |a| + |b|
  {
    if a != [] && b != [] {
      SortedHead(a, caseSensitive);
      SortedHead(b, caseSensitive);
      if Compare(a[0], b[0], caseSensitive) < 0 {
        MergeSorted(a[1..], b, caseSensitive);
        BelowAll(a[0], b[0], b[1..], caseSensitive);
        BelowMerge(a[0], a[1..], b, caseSensitive);
        SortedCons(a[0], Merge(a[1..], b, caseSensitive), caseSensitive);
      } else {
        CompareConnected(a[0], b[0], caseSensitive);
        MergeSorted(a, b[1..], caseSensitive);
        BelowAll(b[0], a[0], a[1..], caseSensitive);
        BelowMerge(b[0], a, b[1..], caseSensitive);
        SortedCons(b[0], Merge(a, b[1..], caseSensitive), caseSensitive);
      }
    }
  }

  lemma {:induction false} StrictlySortedIsSorted<T>(s: seq<Keyed<T>>, caseSensitive: bool)
    requires StrictlySorted(s, caseSensitive)
    ensures Sorted(s, caseSensitive)
    decreases |s|
  {
    if |s| > 1 {
      assert forall i :: 0 < i < |s[1..]| ==> s[1..][i] == s[i + 1] && s[1..][i - 1] == s[i];
      StrictlySortedIsSorted(s[1..], caseSensitive);
      SortedHead(s[1..], caseSensitive);
      BelowAll(s[0], s[1], s[2..], caseSensitive);
      assert s[1..][1..] == s[2..];
      assert s == [s[0]] + s[1..];
      SortedCons(s[0], s[1..], caseSensitive);
    }
  }

  /** The result is the same nodes in non-decreasing key order. */
  lemma {:induction false} SortIsSorted<T>(s: seq<Keyed<T>>, caseSensitive: bool)
    ensures Sorted(Sort(s, caseSensitive), caseSensitive)
    decreases |s|
  {
    if |s| > 1 {
      if StrictlySorted(s, caseSensitive) {
        StrictlySortedIsSorted(s, caseSensitive);
      } else {
        var m := Middle(|s|);
        SortIsSorted(s[..m], caseSensitive);
        SortIsSorted(s[m..], caseSensitive);
        MergeSorted(Sort(s[..m], caseSensitive), Sort(s[m..], caseSensitive), caseSensitive);
      }
    }
  }

  // ---------------------------------------------------------------------------------------------
  // The order that the keys alone determine
  // ---------------------------------------------------------------------------------------------

  function Keys<T>(s: seq<Keyed<T>>): (r: seq<Text>)
    ensures |r| == |s| && forall i :: 0 <= i < |s| ==> r[i] == s[i].key
  {
    seq(|s|, i requires 0 <= i < |s| => s[i].key)
  }

  function Numbered(keys: seq<Text>): (r: seq<Keyed<nat>>)
    ensures |r| == |keys| && forall i :: 0 <= i < |r| ==> r[i] == Keyed(keys[i], i)
  {
    seq(|keys|, i requires 0 <= i < |keys| => Keyed(keys[i], i))
  }

  /** Which item comes to stand at each place when items with these keys are sorted. */
  function Order(keys: seq<Text>, caseSensitive: bool): (places: seq<nat>)
    ensures |places| == |keys|
  {
    var r := Sort(Numbered(keys), caseSensitive);
    seq(|r|, j requires 0 <= j < |r| => r[j].value)
  }

  function Mapped<S, T>(s: seq<Keyed<S>>, f: S -> T): (r: seq<Keyed<T>>)
    ensures |r| == |s| && forall i :: 0 <= i < |r| ==> r[i] == Keyed(s[i].key, f(s[i].value))
  {
    seq(|s|, i requires 0 <= i < |s| => Keyed(s[i].key, f(s[i].value)))
  }

  lemma MappedCons<S, T>(x: Keyed<S>, s: seq<Keyed<S>>, f: S -> T)
    ensures Mapped([x] + s, f) == [Keyed(x.key, f(x.value))] + Mapped(s, f)
  {}

  lemma MergeUnfolds<T>(a: seq<Keyed<T>>, b: seq<Keyed<T>>, caseSensitive: bool)
    requires a != [] && b != []
    ensures Merge(a, b, caseSensitive)
         == if Compare(a[0], b[0], caseSensitive) < 0 then [a[0]] + Merge(a[1..], b, caseSensitive)
            else [b[0]] + Merge(a, b[1..], caseSensitive)
  {
    hide CompareStrings;
  }

  lemma {:induction false} MergeMapped<S, T>(a: seq<Keyed<S>>, b: seq<Keyed<S>>, f: S -> T, caseSensitive: bool)
    ensures Merge(Mapped(a, f), Mapped(b, f), caseSensitive) == Mapped(Merge(a, b, caseSensitive), f)
    decreases |a| + |b|
  {
    var fa, fb := Mapped(a, f), Mapped(b, f);
    if a == [] || b == [] {
      return;
    }
    MergeUnfolds(a, b, caseSensitive);
    MergeUnfolds(fa, fb, caseSensitive);
    hide Merge, CompareStrings, Mapped;
    MappedCons(a[0], a[1..], f);
    MappedCons(b[0], b[1..], f);
    assert [a[0]] + a[1..] == a && [b[0]] + b[1..] == b;
    assert fa[1..] == Mapped(a[1..], f) && fb[1..] == Mapped(b[1..], f);
    if Compare(a[0], b[0], caseSensitive) < 0 {
      MergeMapped(a[1..], b, f, caseSensitive);
      MappedCons(a[0], Merge(a[1..], b, caseSensitive), f);
    } else {
      MergeMapped(a, b[1..], f, caseSensitive);
      MappedCons(b[0], Merge(a, b[1..], caseSensitive), f);
    }
  }

  /** Sorting looks at the keys only. */
  lemma {:induction false} SortMapped<S, T>(s: seq<Keyed<S>>, f: S -> T, caseSensitive: bool)
    ensures Sort(Mapped(s, f), caseSensitive) == Mapped(Sort(s, caseSensitive), f)
    decreases |s|
  {
    hide CompareStrings, Merge;
    var fs := Mapped(s, f);
    StrictlySortedMapped(s, f, caseSensitive);
    hide StrictlySorted;
    if |s| > 1 && !StrictlySorted(s, caseSensitive) {
      var m := Middle(|s|);
      assert fs[..m] == Mapped(s[..m], f) && fs[m..] == Mapped(s[m..], f);
      SortMapped(s[..m], f, caseSensitive);
      SortMapped(s[m..], f, caseSensitive);
      MergeMapped(Sort(s[..m], caseSensitive), Sort(s[m..], caseSensitive), f, caseSensitive);
    }
  }

  lemma StrictlySortedMapped<S, T>(s: seq<Keyed<S>>, f: S -> T, caseSensitive: bool)
    ensures StrictlySorted(Mapped(s, f), caseSensitive) <==> StrictlySorted(s, caseSensitive)
  {
    hide CompareStrings;
    var fs := Mapped(s, f);
    assert forall i :: 0 < i < |s| ==>
                         Compare(fs[i - 1], fs[i], caseSensitive) == Compare(s[i - 1], s[i], caseSensitive);
  }

  /** What is in order already stays as it is. */
  lemma InOrderStays<T>(s: seq<Keyed<T>>, caseSensitive: bool)
    requires StrictlySorted(s, caseSensitive)
    ensures Sort(s, caseSensitive) == s && forall j :: 0 <= j < |s| ==> Order(Keys(s), caseSensitive)[j] == j
  {
    hide CompareStrings;
    var tagged := Numbered(Keys(s));
    assert forall i :: 0 < i < |s| ==>
                         Compare(tagged[i - 1], tagged[i], caseSensitive) == Compare(s[i - 1], s[i], caseSensitive);
    assert Sort(tagged, caseSensitive) == tagged;
  }

  /** Items numbered and sorted are the items in the order of their keys. */
  lemma SortIsOrder<T>(s: seq<Keyed<T>>, caseSensitive: bool)
    ensures Permutation(Order(Keys(s), caseSensitive))
    ensures forall j :: 0 <= j < |s| ==> Sort(s, caseSensitive)[j] == s[Order(Keys(s), caseSensitive)[j]]
  {
    hide Sort;
    var tagged: seq<Keyed<(nat, T)>> := seq(|s|, i requires 0 <= i < |s| => Keyed(s[i].key, (i, s[i].value)));
    var r := Sort(tagged, caseSensitive);
    var number: ((nat, T)) -> nat := (p: (nat, T)) => p.0;
    var item: ((nat, T)) -> T := (p: (nat, T)) => p.1;
    SortMapped(tagged, number, caseSensitive);
    SortMapped(tagged, item, caseSensitive);
    assert Mapped(tagged, number) == Numbered(Keys(s));
    assert Mapped(tagged, item) == s;
    SortPermutes(tagged, caseSensitive);
    var places := Order(Keys(s), caseSensitive);
    forall j | 0 <= j < |r| ensures r[j].value.0 < |s| && r[j] == tagged[r[j].value.0] {
      assert r[j] in multiset(tagged);
    }
    assert forall j :: 0 <= j < |s| ==> places[j] == r[j].value.0;
    OrderPermutes(tagged, r, places);
  }

  lemma OrderPermutes<T>(tagged: seq<Keyed<(nat, T)>>, r: seq<Keyed<(nat, T)>>, places: seq<nat>)
    requires |r| == |tagged| == |places| && multiset(r) == multiset(tagged)
    requires forall i :: 0 <= i < |tagged| ==> tagged[i].value.0 == i
    requires forall j :: 0 <= j < |r| ==> places[j] == r[j].value.0 < |r| && r[j] == tagged[places[j]]
    ensures Permutation(places)
  {
    forall k: nat | k < |places| ensures k in places {
      assert tagged[k] in multiset(r);
      var j :| 0 <= j < |r| && r[j] == tagged[k];
      assert places[j] == k;
    }
    forall i, j | 0 <= i < j < |places| ensures places[i] != places[j] {
      if places[i] == places[j] {
        TwiceIn(r, i, j);
        OnceTagged(tagged, places[i]);
      }
    }
  }

  lemma TwiceIn<T>(r: seq<T>, i: nat, j: nat)
    requires i < j < |r| && r[i] == r[j]
    ensures multiset(r)[r[i]] >= 2
  {
    assert r == r[..i] + [r[i]] + r[i + 1..j] + [r[j]] + r[j + 1..];
  }

  lemma OnceTagged<T>(tagged: seq<Keyed<(nat, T)>>, i: nat)
    requires i < |tagged| && forall k :: 0 <= k < |tagged| ==> tagged[k].value.0 == k
    ensures multiset(tagged)[tagged[i]] == 1
  {
    assert tagged == tagged[..i] + [tagged[i]] + tagged[i + 1..];
    assert tagged[i] !in tagged[..i] && tagged[i] !in tagged[i + 1..];
  }
}
