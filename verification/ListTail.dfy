/** What the `prev` of a list's first child says. Appending goes by it, and sorting and removing can leave it wrong. */
module ListTail {

  /** No item, the item of that number, or one that is not in the list. */
  datatype Tail = Nothing | At(index: nat) | Gone

  /** It is right if it names the last of `n` items; an empty list has none. */
  predicate Right(tail: Tail, n: nat) {
    n == 0 || tail == At(n - 1)
  }

  /** Appending: the new item goes behind the one that is named, which cuts off what was behind that, and nowhere if
      none is named. What happens behind an item that is gone does not show here. */
  function Appended<T>(s: seq<T>, tail: Tail, x: T): seq<T> {
    if s == [] then [x]
    else match tail
      case At(k) => if k < |s| then s[..k + 1] + [x] else s
      case _ => s
  }

  function TailAppended(tail: Tail, n: nat): Tail {
    if n == 0 then At(0) else match tail case At(k) => At(k + 1) case _ => tail
  }

  /** Taking out item `i` of `n`. The last item hands its own `prev` to the first one, and the first its `prev` to the
      second. */
  function Without(tail: Tail, n: nat, i: nat): Tail
    requires i < n
  {
    if n == 1 then Nothing
    else if i == n - 1 then At(n - 2)
    else match tail
      case At(k) => if k == i then Gone else if k > i then At(k - 1) else tail
      case _ => tail
  }

  /** Where `k` stands among `places`. */
  function Position(places: seq<nat>, k: nat): (j: nat)
    requires k in places
    ensures j < |places| && places[j] == k && k !in places[..j]
  {
    if places[0] == k then 0 else
      var j := Position(places[1..], k) + 1;
      assert places[..j] == [places[0]] + places[1..][..j - 1];
      j
  }

  /** The same item when item `places[j]` has come to stand at `j`. */
  function Moved(tail: Tail, places: seq<nat>): Tail {
    match tail
    case At(k) => if k in places then At(Position(places, k)) else Gone
    case _ => tail
  }

  /** Sorting: a new first item has been cut off from what was in front of it, and the old one keeps what it had. */
  function AfterSort(tail: Tail, places: seq<nat>): Tail {
    if places == [] || places[0] != 0 then Nothing else Moved(tail, places)
  }

  ghost predicate Permutation(places: seq<nat>) {
    && (forall i :: 0 <= i < |places| ==> places[i] < |places|)
    && (forall i, j :: 0 <= i < j < |places| ==> places[i] != places[j])
    && (forall k: nat :: k < |places| ==> k in places)
  }

  /** An item goes behind all others exactly if it is right, and then it stays right. */
  lemma AppendedIsLast<T>(s: seq<T>, tail: Tail, x: T)
    requires tail.At? ==> tail.index < |s|
    ensures Appended(s, tail, x) == s + [x] <==> Right(tail, |s|)
    ensures Right(tail, |s|) ==> Right(TailAppended(tail, |s|), |s| + 1)
    ensures !Right(tail, |s|) ==> |Appended(s, tail, x)| <= |s|
  {
    if s != [] && tail == At(|s| - 1) {
      assert s[..|s|] == s;
    }
    assert |s + [x]| == |s| + 1;
  }

  /** Taking an item out never makes it wrong. */
  lemma WithoutKeepsRight(tail: Tail, n: nat, i: nat)
    requires i < n && Right(tail, n)
    ensures Right(Without(tail, n, i), n - 1)
  {}

  /** A wrong one is repaired only by taking out the last item. */
  lemma WithoutRepairs(tail: Tail, n: nat, i: nat)
    requires i < n && !Right(tail, n)
    ensures Right(Without(tail, n, i), n - 1) <==> i == n - 1
  {}

  /** Sorting keeps it right exactly if the first and the last item keep their places. */
  lemma AfterSortIsRight(tail: Tail, places: seq<nat>)
    requires Permutation(places) && Right(tail, |places|)
    ensures Right(AfterSort(tail, places), |places|)
       <==> places == [] || (places[0] == 0 && places[|places| - 1] == |places| - 1)
  {}
}
