/** The doubly linked sibling lists of cJSON: a parent points at its first child, `next` runs to a null, and the first
    child's `prev` points at the last child. */
module SiblingList {
  import opened Bytes
  import opened ListTail

  class Item {
    var next: Item?
    var prev: Item?
    var child: Item?
    var name: Text

    constructor (name: Text)
      ensures next == null && prev == null && child == null && this.name == name
    {
      next, prev, child := null, null, null;
      this.name := name;
    }
  }

  ghost predicate Distinct(s: seq<Item>) {
    forall i, j :: 0 <= i < j < |s| ==> s[i] != s[j]
  }

  /** `s` are the children of `parent`, in order: all links are there, but the `prev` of the first child may be
      wrong. */
  ghost predicate Headed(parent: Item, s: seq<Item>)
    reads parent`child, s
  {
    && parent !in s && Distinct(s)
    && parent.child == (if s == [] then null else s[0])
    && (s != [] ==> s[|s| - 1].next == null)
    && (forall i {:trigger s[i].next} :: 0 <= i < |s| - 1 ==> s[i].next == s[i + 1])
    && (forall i {:trigger s[i].prev} :: 0 < i < |s| ==> s[i].prev == s[i - 1])
  }

  /** `s` is the sibling list of `parent`: in addition the first child's `prev` is the last child. */
  ghost predicate IsList(parent: Item, s: seq<Item>)
    reads parent`child, s
  {
    Headed(parent, s) && (s != [] ==> s[0].prev == s[|s| - 1])
  }

  /** Which of the items a pointer names. */
  ghost function Pointed(s: seq<Item>, p: Item?): (tail: Tail)
    ensures tail.At? ==> tail.index < |s| && s[tail.index] == p
  {
    if p == null then Nothing
    else if p in s then (var k: nat :| k < |s| && s[k] == p; At(k))
    else Gone
  }

  /** What the first child's `prev` says. */
  ghost function TailOf(s: seq<Item>): (tail: Tail)
    reads s
    ensures tail.At? ==> tail.index < |s| && s[tail.index] == s[0].prev
  {
    if s == [] then Nothing else Pointed(s, s[0].prev)
  }

  lemma PointedAt(s: seq<Item>, k: nat)
    requires Distinct(s) && k < |s|
    ensures forall p :: Pointed(s, p) == At(k) <==> p == s[k]
  {}

  lemma PointedNull(s: seq<Item>)
    ensures forall p :: Pointed(s, p) == Nothing <==> p == null
  {}

  lemma PointedOutside(s: seq<Item>)
    ensures forall p :: Pointed(s, p) == Gone <==> p != null && p !in s
  {}

  /** A sibling list is one whose first child's `prev` is right. */
  lemma ListHasRightTail(parent: Item, s: seq<Item>)
    ensures IsList(parent, s) <==> Headed(parent, s) && Right(TailOf(s), |s|)
  {
    if Headed(parent, s) && s != [] {
      PointedAt(s, |s| - 1);
    }
  }

  /** A detached item: it points nowhere. */
  ghost predicate Detached(item: Item)
    reads item
  {
    item.next == null && item.prev == null
  }

  /** The list that a parent heads is unique. */
  lemma {:induction false} ListIsUnique(parent: Item, s: seq<Item>, t: seq<Item>)
    requires IsList(parent, s) && IsList(parent, t)
    ensures s == t
  {
    PrefixesAgree(parent, s, t, if |s| < |t| then |s| else |t|);
  }

  lemma {:induction false} PrefixesAgree(parent: Item, s: seq<Item>, t: seq<Item>, n: nat)
    requires IsList(parent, s) && IsList(parent, t) && n <= |s| && n <= |t|
    ensures s[..n] == t[..n]
    decreases n
  {
    if n > 1 {
      PrefixesAgree(parent, s, t, n - 1);
      assert s[n - 2] == s[..n - 1][n - 2] == t[..n - 1][n - 2] == t[n - 2];
      assert s[n - 2].next == s[n - 1] && t[n - 2].next == t[n - 1];
      assert s[..n] == s[..n - 1] + [s[n - 1]] && t[..n] == t[..n - 1] + [t[n - 1]];
    }
  }

  function Insert(s: seq<Item>, which: nat, item: Item): seq<Item>
    requires which <= |s|
  {
    s[..which] + [item] + s[which..]
  }

  function Remove(s: seq<Item>, which: nat): seq<Item>
    requires which < |s|
  {
    s[..which] + s[which + 1..]
  }

  lemma PointedWithout(s: seq<Item>, k: nat, p: Item?)
    requires Distinct(s) && k < |s| && |s| > 1
    ensures Pointed(Remove(s, k), if k == |s| - 1 then s[|s| - 2] else p) == Without(Pointed(s, p), |s|, k)
  {
    var r := Remove(s, k);
    if k == |s| - 1 {
      PointedAt(r, |r| - 1);
    } else if p != null && p in s {
      var i: nat :| i < |s| && s[i] == p;
      PointedAt(s, i);
      if i != k {
        PointedAt(r, if i < k then i else i - 1);
      }
    }
  }

  ghost function First(s: seq<Item>): set<Item> {
    if s == [] then {} else {s[0]}
  }

  ghost function Last(s: seq<Item>): set<Item> {
    if s == [] then {} else {s[|s| - 1]}
  }

  /** The nodes around position `k` of a list. */
  ghost function Before(s: seq<Item>, k: nat): set<Item> {
    if 0 < k <= |s| then {s[k - 1]} else {}
  }

  ghost function Nth(s: seq<Item>, k: nat): set<Item> {
    if k < |s| then {s[k]} else {}
  }

  ghost function After(s: seq<Item>, k: nat): set<Item> {
    if k + 1 < |s| then {s[k + 1]} else {}
  }

  /** `get_array_item`. */
  method GetArrayItem(parent: Item, index: nat, ghost s: seq<Item>) returns (item: Item?)
    requires IsList(parent, s)
    ensures item == if index < |s| then s[index] else null
  {
    item := parent.child;
    var left := index;
    while item != null && left > 0
      invariant 0 <= left <= index && index - left <= |s|
      invariant item == if index - left < |s| then s[index - left] else null
      decreases left
    {
      left := left - 1;
      item := item.next;
    }
  }

  /** The item that the first child's `prev` names, a child or not. */
  ghost function Referred(s: seq<Item>): set<Item>
    reads s
  {
    if s == [] || s[0].prev == null then {} else {s[0].prev}
  }

  /** `add_item_to_array`: the new item goes behind the child that the first child's `prev` names, which cuts off what
      was behind that one; it does not come into the list if that `prev` is null or names an item outside, which is
      then followed by the new one. The item's own `next` is cleared only when the list was empty. */
  method AddItemToArray(parent: Item, item: Item, ghost s: seq<Item>) returns (ok: bool)
    requires Headed(parent, s) && item !in s
    modifies parent`child, item`next, item`prev, First(s)`prev, Referred(s)`next
    ensures ok == (item != parent)
    ensures ok && (s == [] || (old(item.next) == null && Right(old(TailOf(s)), |s|))) ==> IsList(parent, s + [item])
    ensures ok && (s == [] || old(item.next) == null || !old(TailOf(s)).At?) ==>
              (var r := Appended(s, old(TailOf(s)), item);
               Headed(parent, r) && TailOf(r) == TailAppended(old(TailOf(s)), |s|))
    ensures ok && s != [] && old(s[0].prev) != null ==>
              old(s[0].prev).next == item && item.prev == old(s[0].prev) && s[0].prev == item
    ensures !ok ==> Headed(parent, s) && TailOf(s) == old(TailOf(s))
  {
    hide Pointed;
    PointedNull(s);
    PointedOutside(s);
    ghost var tail := TailOf(s);
    ghost var r := Appended(s, tail, item);
    AppendedIsLast(s, tail, item);
    if parent == item {
      return false;
    }
    var child := parent.child;
    if child == null {
      parent.child := item;
      item.prev := item;
      item.next := null;
      PointedAt(r, 0);
    } else {
      if child.prev != null {
        ghost var k := if tail.At? then tail.index else 0;
        assert tail.At? ==> (forall i :: 0 <= i <= k ==> r[i] == s[i]) && (k + 1 == |s| ==> r == s + [item]);
        SuffixObject(child.prev, item);
        parent.child.prev := item;
        if tail.At? {
          PointedAt(r, k + 1);
        }
      }
    }
    ok := true;
  }

  method SuffixObject(prev: Item, item: Item)
    modifies prev`next, item`prev
    ensures prev.next == item && item.prev == prev
  {
    prev.next := item;
    item.prev := prev;
  }

  /** The writes of `cJSON_DetachItemViaPointer`. */
  method Unlink(parent: Item, item: Item, ghost s: seq<Item>, ghost k: nat)
    requires Headed(parent, s) && k < |s| && s[k] == item
    modifies parent`child, item`next, item`prev, First(s)`prev, Before(s, k)`next, After(s, k)`prev
    ensures Headed(parent, Remove(s, k)) && Detached(item)
    ensures |s| > 1 ==> Remove(s, k)[0].prev == if k == |s| - 1 then s[|s| - 2] else old(s[0].prev)
  {
    if item != parent.child {
      item.prev.next := item.next;
    }
    if item.next != null {
      item.next.prev := item.prev;
    }
    if item == parent.child {
      parent.child := item.next;
    } else if item.next == null {
      parent.child.prev := item.prev;
    }
    item.prev := null;
    item.next := null;
    ghost var r := Remove(s, k);
    assert (forall i :: 0 <= i < k ==> r[i] == s[i]) && forall i :: k <= i < |r| ==> r[i] == s[i + 1];
  }

  /** `cJSON_DetachItemViaPointer`: a wrong `prev` of the first child stays as wrong as it was, or is repaired. */
  method DetachItemViaPointer(parent: Item, item: Item, ghost s: seq<Item>, ghost k: nat)
    requires Headed(parent, s) && k < |s| && s[k] == item
    modifies parent`child, item`next, item`prev, First(s)`prev, Before(s, k)`next, After(s, k)`prev
    ensures Headed(parent, Remove(s, k)) && Detached(item)
    ensures TailOf(Remove(s, k)) == Without(old(TailOf(s)), |s|, k)
    ensures old(IsList(parent, s)) ==> IsList(parent, Remove(s, k))
  {
    hide Pointed;
    ghost var p := s[0].prev;
    Unlink(parent, item, s, k);
    if |s| > 1 {
      PointedWithout(s, k, p);
    }
    ListHasRightTail(parent, Remove(s, k));
    assert old(IsList(parent, s)) ==> Pointed(s, p) == At(|s| - 1) by { PointedAt(s, |s| - 1); }
  }

  /** `detach_item_from_array`. */
  method DetachItemFromArray(parent: Item, which: nat, ghost s: seq<Item>) returns (c: Item?)
    requires IsList(parent, s)
    modifies parent`child, First(s)`prev, Before(s, which)`next, After(s, which)`prev
    modifies Nth(s, which)`next, Nth(s, which)`prev
    ensures which < |s| ==> c == s[which] && IsList(parent, Remove(s, which)) && Detached(s[which])
    ensures which >= |s| ==> c == null && IsList(parent, s)
  {
    c := parent.child;
    var left := which;
    while c != null && left > 0
      invariant 0 <= left <= which && which - left <= |s|
      invariant c == if which - left < |s| then s[which - left] else null
      decreases left
    {
      c := c.next;
      left := left - 1;
    }
    if c == null {
      return;
    }
    DetachItemViaPointer(parent, c, s, which);
  }

  /** The writes of `insert_item_in_array` in front of child number `which`. */
  method LinkInFront(parent: Item, ghost which: nat, child: Item, newitem: Item, ghost s: seq<Item>)
    requires IsList(parent, s) && newitem !in s && newitem != parent && which < |s| && child == s[which]
    modifies parent`child, newitem`next, newitem`prev, Before(s, which)`next, child`prev
    ensures IsList(parent, Insert(s, which, newitem))
  {
    newitem.next := child;
    newitem.prev := child.prev;
    child.prev := newitem;
    if child == parent.child {
      parent.child := newitem;
    } else {
      newitem.prev.next := newitem;
    }
  }

  /** `insert_item_in_array`. */
  method InsertItemInArray(parent: Item, which: nat, newitem: Item, ghost s: seq<Item>) returns (ok: bool)
    requires IsList(parent, s) && newitem !in s && newitem != parent && Detached(newitem)
    modifies parent`child, newitem`next, newitem`prev, First(s)`prev, Last(s)`next
    modifies Before(s, which)`next, Before(s, which + 1)`prev
    ensures ok == (which <= |s|)
    ensures if ok then IsList(parent, Insert(s, which, newitem)) else IsList(parent, s)
  {
    var child := parent.child;
    var left := which;
    while child != null && left > 0
      invariant 0 <= left <= which && which - left <= |s|
      invariant child == if which - left < |s| then s[which - left] else null
      decreases left
    {
      child := child.next;
      left := left - 1;
    }
    if left > 0 {
      return false;
    }
    if child == null {
      assert Insert(s, which, newitem) == s + [newitem];
      ok := AddItemToArray(parent, newitem, s);
      return;
    }
    LinkInFront(parent, which, child, newitem, s);
    ok := true;
  }

  /** `cJSON_ReplaceItemViaPointer`, up to the deletion of the replaced item. */
  method ReplaceItemViaPointer(parent: Item, item: Item, replacement: Item, ghost s: seq<Item>, ghost k: nat)
    requires IsList(parent, s) && k < |s| && s[k] == item
    requires replacement == item || (replacement !in s && replacement != parent)
    modifies parent`child, item`next, item`prev, replacement`next, replacement`prev
    modifies First(s)`prev, Before(s, k)`next, After(s, k)`prev
    ensures IsList(parent, s[k := replacement])
    ensures replacement != item ==> Detached(item)
  {
    if replacement == item {
      return;
    }
    replacement.next := item.next;
    replacement.prev := item.prev;
    if replacement.next != null {
      replacement.next.prev := replacement;
    }
    if parent.child == item {
      if parent.child.prev == parent.child {
        replacement.prev := replacement;
      }
      parent.child := replacement;
    } else {
      if replacement.prev != null {
        replacement.prev.next := replacement;
      }
      if replacement.next == null {
        parent.child.prev := replacement;
      }
    }
    item.next := null;
    item.prev := null;
  }

  // ---------------------------------------------------------------------------------------------
  // Copies
  // ---------------------------------------------------------------------------------------------

  /** A tree of items: an item, and the trees of its children. */
  datatype Shape = Shape(item: Item, children: seq<Shape>)

  ghost function Items(cs: seq<Shape>): (s: seq<Item>)
    ensures |s| == |cs| && forall i :: 0 <= i < |s| ==> s[i] == cs[i].item
  {
    seq(|cs|, i requires 0 <= i < |cs| => cs[i].item)
  }

  /** The items below the root. */
  ghost function Below(t: Shape): set<Item>
    decreases t, 0
  {
    set i, x | 0 <= i < |t.children| && x in Nodes(t.children[i]) :: x
  }

  ghost function Nodes(t: Shape): set<Item>
    decreases t, 1
  {
    {t.item} + Below(t)
  }

  lemma BelowHas(t: Shape, i: nat)
    requires i < |t.children|
    ensures Nodes(t.children[i]) <= Below(t)
    ensures t.children[i].item in Below(t) && Below(t.children[i]) <= Below(t)
  {}

  /** The `child` and `next` links are those of the tree; nothing is said of `prev`. */
  ghost predicate Walkable(t: Shape)
    reads t.item`child, Below(t)
    decreases t, 1
  {
    && t.item.child == (if t.children == [] then null else t.children[0].item)
    && forall i :: 0 <= i < |t.children| ==> WalkableChild(t, i)
  }

  ghost predicate WalkableChild(t: Shape, i: nat)
    requires i < |t.children|
    reads Below(t)
    decreases t, 0
  {
    BelowHas(t, i);
    && t.children[i].item.next == (if i < |t.children| - 1 then t.children[i + 1].item else null)
    && Walkable(t.children[i])
  }

  lemma ItemsBelow(t: Shape)
    ensures forall x :: x in Items(t.children) ==> x in Below(t)
  {
    forall x | x in Items(t.children) ensures x in Below(t) {
      var i :| 0 <= i < |t.children| && Items(t.children)[i] == x;
      BelowHas(t, i);
    }
  }

  /** The root of the tree heads the sibling list of its children. */
  ghost predicate Listed(t: Shape)
    reads t.item`child, Below(t)
  {
    ItemsBelow(t);
    IsList(t.item, Items(t.children))
  }

  /** Every item of the tree does. */
  ghost predicate Proper(t: Shape)
    reads t.item`child, Below(t)
    decreases t, 1
  {
    Listed(t) && forall i :: 0 <= i < |t.children| ==> ProperChild(t, i)
  }

  ghost predicate ProperChild(t: Shape, i: nat)
    requires i < |t.children|
    reads Below(t)
    decreases t, 0
  {
    BelowHas(t, i);
    Proper(t.children[i])
  }

  /** Two trees have the same form and the same names. */
  ghost predicate SameShape(t: Shape, u: Shape)
    reads Nodes(t)`name, Nodes(u)`name
    decreases t, 1
  {
    && t.item.name == u.item.name && |t.children| == |u.children|
    && forall i :: 0 <= i < |t.children| ==> SameChild(t, u, i)
  }

  ghost predicate SameChild(t: Shape, u: Shape, i: nat)
    requires i < |t.children| && i < |u.children|
    reads Below(t)`name, Below(u)`name
    decreases t, 0
  {
    BelowHas(t, i);
    BelowHas(u, i);
    SameShape(t.children[i], u.children[i])
  }

  /** The trees share no root with each other, and have no root and not the parent below another. */
  ghost predicate Apart(parent: Item, us: seq<Shape>) {
    && (forall i :: 0 <= i < |us| ==> parent !in Nodes(us[i]))
    && forall i, j :: 0 <= i < |us| && 0 <= j < |us| ==> us[i].item !in Below(us[j])
  }

  method Crosswire(newitem: Item, next: Item?, newchild: Item, ghost s: seq<Item>)
    requires Headed(newitem, s) && next == (if s == [] then null else s[|s| - 1])
    requires newchild !in s && newchild != newitem && Detached(newchild)
    modifies newitem`child, Last(s)`next, newchild`prev
    ensures Headed(newitem, s + [newchild])
  {
    if next != null {
      next.next := newchild;
      newchild.prev := next;
    } else {
      newitem.child := newchild;
    }
  }

  /** Adding the tree `c` to those of a growing list leaves the links inside all of them alone. */
  method Join(newitem: Item, next: Item?, newchild: Item, ghost us: seq<Shape>, ghost c: Shape)
    requires Headed(newitem, Items(us)) && next == (if us == [] then null else us[|us| - 1].item)
    requires c.item == newchild && Apart(newitem, us + [c]) && newchild !in Items(us) && Detached(newchild)
    requires forall i :: 0 <= i < |us| ==> Proper(us[i])
    requires Proper(c)
    modifies newitem`child, Last(Items(us))`next, newchild`prev
    ensures Headed(newitem, Items(us + [c]))
    ensures forall i :: 0 <= i < |us + [c]| ==> Proper((us + [c])[i])
  {
    hide Headed, Proper, Below;
    ghost var all := us + [c];
    assert forall i :: 0 <= i < |us| ==> all[i] == us[i];
    assert all[|us|] == c;
    assert Items(all) == Items(us) + [newchild];
    Crosswire(newitem, next, newchild, Items(us));
    forall i | 0 <= i < |all| ensures Proper(all[i]) {
      assert old(Proper(all[i])) && old(allocated(Below(all[i])));
      assert newitem !in Below(all[i]) && newitem != all[i].item;
      assert newchild !in Below(all[i]);
      assert forall x :: x in Last(Items(us)) ==> x !in Below(all[i]);
    }
  }

  lemma ApartFrom(parent: Item, us: seq<Shape>, c: Shape)
    requires Apart(parent, us) && parent !in Nodes(c) && c.item !in Below(c)
    requires forall i :: 0 <= i < |us| ==> Nodes(us[i]) !! Nodes(c)
    ensures Apart(parent, us + [c]) && c.item !in Items(us) && parent !in Items(us + [c])
  {
    hide Below;
    var all := us + [c];
    forall i, j | 0 <= i < |all| && 0 <= j < |all| ensures all[i].item !in Below(all[j]) {
      assert all[i].item in Nodes(all[i]) && Below(all[j]) <= Nodes(all[j]);
    }
  }

  /** The first children of `t` and their copies. */
  ghost predicate Copied(t: Shape, us: seq<Shape>, i: nat)
    requires i < |us| <= |t.children|
    reads us[i].item`child, Below(us[i]), Nodes(t.children[i])`name, Nodes(us[i])`name
  {
    Proper(us[i]) && SameShape(t.children[i], us[i])
  }

  /** One round of the loop: the next child is copied and linked in, and its sibling is next. */
  method DuplicateNext(child: Item, next: Item?, newitem: Item, ghost t: Shape, ghost us: seq<Shape>)
    returns (newchild: Item, sibling: Item?, ghost c: Shape)
    requires |us| < |t.children| && child == t.children[|us|].item && Walkable(t)
    requires newitem !in Nodes(t) && Last(Items(us)) !! Nodes(t)
    requires Headed(newitem, Items(us)) && Apart(newitem, us)
    requires next == if us == [] then null else us[|us| - 1].item
    requires forall i :: 0 <= i < |us| ==> Copied(t, us, i)
    modifies newitem`child, Last(Items(us))`next
    ensures newchild == c.item && fresh(Nodes(c)) && fresh(newchild) && newitem !in Items(us + [c])
    ensures Walkable(t) && sibling == if |us| + 1 < |t.children| then t.children[|us| + 1].item else null
    ensures Headed(newitem, Items(us + [c])) && Apart(newitem, us + [c])
    ensures forall i :: 0 <= i < |us + [c]| ==> Copied(t, us + [c], i)
    decreases t, 0
  {
    hide Headed, Below, Apart, Proper, SameShape, Walkable;
    WalkableAt(t, |us|);
    newchild, c := Duplicate(child, t.children[|us|]);
    forall i | 0 <= i < |us| ensures Copied(t, us, i) && Nodes(us[i]) !! Nodes(c) {
      assert old(Copied(t, us, i)) && old(allocated(Below(us[i]))) && old(allocated(Nodes(us[i])));
      assert old(allocated(Nodes(t.children[i])));
    }
    ApartFrom(newitem, us, c);
    label Linking:
    Join(newitem, next, newchild, us, c);
    ghost var all := us + [c];
    forall i | 0 <= i < |all| ensures Copied(t, all, i) {
      assert old@Linking(SameShape(t.children[i], all[i]));
      assert old@Linking(allocated(Nodes(t.children[i])) && allocated(Nodes(all[i])));
    }
    assert old(Walkable(t)) && old(allocated(Below(t)));
    WalkableAt(t, |us|);
    sibling := child.next;
  }

  /** `cJSON_Duplicate` with recursion: a fresh tree of the same form and names, with every link right at every
      level, the first child's `prev` included, whatever the `prev` links of the original are. */
  method Duplicate(item: Item, ghost t: Shape) returns (newitem: Item, ghost u: Shape)
    requires t.item == item && Walkable(t)
    ensures u.item == newitem && newitem !in Below(u) && fresh(Nodes(u)) && Detached(newitem)
    ensures Proper(u) && SameShape(t, u)
    decreases t, 1
  {
    hide Headed, Below, Nodes, Apart, Copied, Walkable, WalkableChild, Proper, SameShape, Items, IsList;
    WalkableAt(t, 0);
    newitem := new Item(item.name);
    ghost var us: seq<Shape>, made: set<Item> := [], {};
    var next: Item?, newchild: Item? := null, null;
    var child := item.child;
    NothingYet(newitem);
    assert old(Walkable(t)) && old(allocated(Nodes(t))) && old(allocated(Below(t)));
    while child != null
      invariant |us| <= |t.children| && child == if |us| < |t.children| then t.children[|us|].item else null
      invariant fresh(newitem) && Detached(newitem) && newitem.name == item.name
      invariant fresh(made) && forall i :: 0 <= i < |us| ==> Nodes(us[i]) <= made && us[i].item in made
      invariant newitem !in Items(us) && Walkable(t)
      invariant next == newchild == if us == [] then null else us[|us| - 1].item
      invariant Headed(newitem, Items(us)) && Apart(newitem, us)
      invariant forall i :: 0 <= i < |us| ==> Copied(t, us, i)
      decreases |t.children| - |us|
    {
      ghost var c;
      newchild, child, c := DuplicateNext(child, next, newitem, t, us);
      us, made := us + [c], made + Nodes(c) + {newchild};
      next := newchild;
    }
    u := Shape(newitem, us);
    NodesOfTree(u, made);
    CloseList(newitem, newchild, t, us);
  }

  /** Behind the loop, the first child's `prev` is set. */
  method CloseList(newitem: Item, newchild: Item?, ghost t: Shape, ghost us: seq<Shape>)
    requires Headed(newitem, Items(us)) && Apart(newitem, us) && |us| == |t.children|
    requires newchild == if us == [] then null else us[|us| - 1].item
    requires t.item.name == newitem.name && forall i :: 0 <= i < |us| ==> Copied(t, us, i)
    modifies First(Items(us))`prev
    ensures Proper(Shape(newitem, us)) && SameShape(t, Shape(newitem, us))
  {
    hide Below, Proper, SameShape;
    ghost var u := Shape(newitem, us);
    if newitem.child != null {
      newitem.child.prev := newchild;
    }
    forall i | 0 <= i < |us| ensures Proper(us[i]) && SameShape(t.children[i], us[i]) {
      assert old(Copied(t, us, i)) && old(allocated(Below(us[i]))) && old(allocated(Nodes(us[i])));
      assert old(allocated(Nodes(t.children[i])));
    }
    assert IsList(newitem, Items(us));
    RootIsProper(t, u);
  }

  lemma RootIsProper(t: Shape, u: Shape)
    requires t.item.name == u.item.name && |t.children| == |u.children| && IsList(u.item, Items(u.children))
    requires forall i :: 0 <= i < |t.children| ==> Proper(u.children[i]) && SameShape(t.children[i], u.children[i])
    ensures Proper(u) && SameShape(t, u)
  {
    hide IsList;
  }

  lemma WalkableAt(t: Shape, i: nat)
    requires Walkable(t)
    ensures t.item.child == (if t.children == [] then null else t.children[0].item)
    ensures i < |t.children| ==>
              && Walkable(t.children[i])
              && t.children[i].item.next == if i < |t.children| - 1 then t.children[i + 1].item else null
  {
    if i < |t.children| {
      assert WalkableChild(t, i);
    }
  }

  lemma BelowAChild(t: Shape, x: Item) returns (i: nat)
    requires x in Below(t)
    ensures i < |t.children| && x in Nodes(t.children[i])
  {
    i :| i < |t.children| && x in Nodes(t.children[i]);
  }

  lemma NodesOfTree(t: Shape, nodes: set<Item>)
    requires forall i :: 0 <= i < |t.children| ==> Nodes(t.children[i]) <= nodes
    ensures Nodes(t) <= {t.item} + nodes
    ensures Apart(t.item, t.children) ==> t.item !in Below(t)
  {
    hide Below;
    forall x | x in Below(t) ensures x in nodes && (Apart(t.item, t.children) ==> x != t.item) {
      var i := BelowAChild(t, x);
    }
  }

  lemma NothingYet(parent: Item)
    requires parent.child == null
    ensures Headed(parent, Items([])) && Apart(parent, [])
  {}
}
