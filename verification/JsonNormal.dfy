/** What a document means when the order of object members does not count: objects become maps. Two documents with
    distinct keys have equal normal forms exactly when they are equal up to member order. */
module JsonNormal {
  import opened Bytes
  import opened Json
  import opened KeyedSort

  datatype NValue =
    | NInvalid
    | NNull
    | NBool(b: bool)
    | NNumber(n: int)
    | NStr(s: Text)
    | NArray(items: seq<NValue>)
    | NObject(members: map<Text, NValue>)

  function Norm(v: Value): NValue
    decreases v, 1
  {
    match v
    case Invalid => NInvalid
    case Null => NNull
    case Bool(b) => NBool(b)
    case Number(n) => NNumber(n)
    case Str(s) => NStr(s)
    case Array(items) => NArray(NormItems(items))
    case Object(ms) => NObject(NormMembers(ms))
  }

  function NormItems(items: seq<Value>): (r: seq<NValue>)
    ensures |r| == |items| && forall i :: 0 <= i < |r| ==> r[i] == Norm(items[i])
    decreases items, 0
  {
    seq(|items|, i requires 0 <= i < |items| => Norm(items[i]))
  }

  /** Of several members with one key, a lookup sees the first. */
  function NormMembers(ms: seq<Keyed<Value>>): map<Text, NValue>
    decreases ms, 0
  {
    if ms == [] then map[] else NormMembers(ms[1..])[ms[0].key := Norm(ms[0].value)]
  }

  /** The keys that occur anywhere in a document. */
  ghost predicate KeysIn(v: Value, keys: iset<Text>) {
    match v
    case Array(items) => forall i :: 0 <= i < |items| ==> KeysIn(items[i], keys)
    case Object(ms) => forall i :: 0 <= i < |ms| ==> ms[i].key in keys && KeysIn(ms[i].value, keys)
    case _ => true
  }

  /** A document without repeated keys whose keys are all among `keys`. */
  ghost predicate Fine(v: Value, keys: iset<Text>) {
    Proper(v) && KeysIn(v, keys)
  }

  ghost predicate FineMembers(ms: seq<Keyed<Value>>, keys: iset<Text>) {
    DistinctKeys(ms) && forall i :: 0 <= i < |ms| ==> ms[i].key in keys && Fine(ms[i].value, keys)
  }

  lemma FineObject(ms: seq<Keyed<Value>>, keys: iset<Text>)
    ensures Fine(Object(ms), keys) <==> FineMembers(ms, keys)
  {}

  lemma FineArray(items: seq<Value>, keys: iset<Text>)
    ensures Fine(Array(items), keys) <==> forall i :: 0 <= i < |items| ==> Fine(items[i], keys)
  {}

  // ---------------------------------------------------------------------------------------------
  // The map of a member list
  // ---------------------------------------------------------------------------------------------

  predicate HasKey(ms: seq<Keyed<Value>>, k: Text) {
    exists i :: 0 <= i < |ms| && ms[i].key == k
  }

  lemma {:induction false} NormMembersKeys(ms: seq<Keyed<Value>>)
    ensures forall k :: k in NormMembers(ms) <==> HasKey(ms, k)
  {
    if ms != [] {
      NormMembersKeys(ms[1..]);
      forall k ensures k in NormMembers(ms) <==> HasKey(ms, k) {
        if HasKey(ms, k) {
          var i :| 0 <= i < |ms| && ms[i].key == k;
          assert i == 0 || ms[1..][i - 1].key == k;
        }
        if HasKey(ms[1..], k) {
          var i :| 0 <= i < |ms[1..]| && ms[1..][i].key == k;
          assert ms[i + 1].key == k;
        }
      }
    }
  }

  lemma {:induction false} NormMembersAt(ms: seq<Keyed<Value>>, i: nat)
    requires DistinctKeys(ms) && i < |ms|
    ensures ms[i].key in NormMembers(ms) && NormMembers(ms)[ms[i].key] == Norm(ms[i].value)
    decreases |ms|
  {
    if i > 0 {
      NormMembersAt(ms[1..], i - 1);
    }
  }

  /** Two lists with distinct keys and the same members, in whatever order, have the same map. */
  lemma NormMembersOfSame(a: seq<Keyed<Value>>, b: seq<Keyed<Value>>)
    requires DistinctKeys(a) && DistinctKeys(b) && forall m :: m in a <==> m in b
    ensures NormMembers(a) == NormMembers(b)
  {
    NormMembersKeys(a);
    NormMembersKeys(b);
    forall k | k in NormMembers(a)
      ensures k in NormMembers(b) && NormMembers(a)[k] == NormMembers(b)[k]
    {
      var i :| 0 <= i < |a| && a[i].key == k;
      assert a[i] in b;
      var j :| 0 <= j < |b| && b[j] == a[i];
      NormMembersAt(a, i);
      NormMembersAt(b, j);
    }
    forall k | k in NormMembers(b) ensures k in NormMembers(a) {
      var j :| 0 <= j < |b| && b[j].key == k;
      assert b[j] in a;
      var i :| 0 <= i < |a| && a[i] == b[j];
    }
  }

  lemma {:induction false} NormMembersAppend(ms: seq<Keyed<Value>>, m: Keyed<Value>)
    requires !HasKey(ms, m.key)
    ensures NormMembers(ms + [m]) == NormMembers(ms)[m.key := Norm(m.value)]
    decreases |ms|
  {
    if ms == [] {
      assert [] + [m] == [m] && [m][1..] == [];
    } else {
      assert (ms + [m])[1..] == ms[1..] + [m];
      forall i | 0 <= i < |ms[1..]| ensures ms[1..][i].key != m.key {
        assert ms[1..][i] == ms[i + 1];
      }
      NormMembersAppend(ms[1..], m);
      assert ms[0].key != m.key;
    }
  }

  lemma {:induction false} NormMembersRemove(ms: seq<Keyed<Value>>, i: nat)
    requires DistinctKeys(ms) && i < |ms|
    ensures NormMembers(ms[..i] + ms[i + 1..]) == NormMembers(ms) - {ms[i].key}
    decreases i
  {
    hide Norm;
    var rest := ms[..i] + ms[i + 1..];
    if i == 0 {
      assert rest == ms[1..];
      NormMembersKeys(ms[1..]);
      MapRemoveAdded(NormMembers(ms[1..]), ms[0].key, Norm(ms[0].value));
    } else {
      assert rest[0] == ms[0] && rest[1..] == ms[1..][..i - 1] + ms[1..][i..];
      assert ms[1..][i - 1] == ms[i];
      NormMembersRemove(ms[1..], i - 1);
      MapRemoveOther(NormMembers(ms[1..]), ms[0].key, Norm(ms[0].value), ms[i].key);
    }
  }

  lemma MapRemoveAdded<V>(m: map<Text, V>, k: Text, v: V)
    requires k !in m
    ensures m[k := v] - {k} == m
  {}

  lemma MapRemoveOther<V>(m: map<Text, V>, k: Text, v: V, other: Text)
    requires k != other
    ensures m[k := v] - {other} == (m - {other})[k := v]
  {}

  lemma {:induction false} NormMembersUpdate(ms: seq<Keyed<Value>>, i: nat, w: Value)
    requires DistinctKeys(ms) && i < |ms|
    ensures NormMembers(ms[i := Keyed(ms[i].key, w)]) == NormMembers(ms)[ms[i].key := Norm(w)]
    decreases i
  {
    var r := ms[i := Keyed(ms[i].key, w)];
    if i == 0 {
      assert r[1..] == ms[1..];
    } else {
      assert r[0] == ms[0] && r[1..] == ms[1..][i - 1 := Keyed(ms[i].key, w)];
      NormMembersUpdate(ms[1..], i - 1, w);
    }
  }

  lemma FineMembersRemove(ms: seq<Keyed<Value>>, i: nat, keys: iset<Text>)
    requires FineMembers(ms, keys) && i < |ms|
    ensures FineMembers(ms[..i] + ms[i + 1..], keys) && !HasKey(ms[..i] + ms[i + 1..], ms[i].key)
  {
    var r := ms[..i] + ms[i + 1..];
    assert forall k :: 0 <= k < |r| ==> r[k] == ms[if k < i then k else k + 1];
  }

  lemma FineMembersAppend(ms: seq<Keyed<Value>>, m: Keyed<Value>, keys: iset<Text>)
    requires FineMembers(ms, keys) && !HasKey(ms, m.key) && m.key in keys && Fine(m.value, keys)
    ensures FineMembers(ms + [m], keys)
  {}

  /** Sorting the members changes neither the map nor the fitness of the list. */
  lemma SortKeepsMembers(ms: seq<Keyed<Value>>, keys: iset<Text>, caseSensitive: bool)
    requires FineMembers(ms, keys)
    ensures FineMembers(Sort(ms, caseSensitive), keys)
    ensures NormMembers(Sort(ms, caseSensitive)) == NormMembers(ms)
  {
    var r := Sort(ms, caseSensitive);
    SortPermutes(ms, caseSensitive);
    forall m ensures m in ms <==> m in r {
      assert m in multiset(ms) <==> m in multiset(r);
    }
    forall i | 0 <= i < |r| ensures r[i].key in keys && Fine(r[i].value, keys) {
      assert r[i] in ms;
    }
    DistinctAsSet(ms);
    forall i, j | 0 <= i < j < |r| ensures r[i].key != r[j].key {
      if r[i].key == r[j].key {
        assert r[i] in ms && r[j] in ms;
        assert r[i] == r[j];
        TwiceIn(r, i, j);
        OnceInMultiset(ms, r[i]);
        assert false;
      }
    }
    NormMembersOfSame(ms, r);
  }

  lemma DistinctAsSet(ms: seq<Keyed<Value>>)
    requires DistinctKeys(ms)
    ensures forall x, y :: x in ms && y in ms && x.key == y.key ==> x == y
  {}

  lemma {:induction false} OnceInMultiset(ms: seq<Keyed<Value>>, m: Keyed<Value>)
    requires DistinctKeys(ms)
    ensures multiset(ms)[m] <= 1
    decreases |ms|
  {
    if ms != [] {
      OnceInMultiset(ms[1..], m);
      assert ms == [ms[0]] + ms[1..];
      if ms[0] == m {
        assert m !in ms[1..];
      }
    }
  }
}
