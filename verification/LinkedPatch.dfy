/** Patching a document in place: which of its members an object has afterwards depends on what the `prev` of its first
    child says when a member is added. */
module LinkedPatch {
  import opened Bytes
  import opened Json
  import opened JsonPointer
  import opened PointerDecode
  import opened KeyedSort
  import opened ListTail
  import opened JsonNormal
  import opened JsonCompare
  import opened JsonPatch
  import opened LinkedTree

  // ---------------------------------------------------------------------------------------------
  // Removing and adding
  // ---------------------------------------------------------------------------------------------

  /** A node that has been taken out, and the document without it. */
  datatype Taken = Taken(item: Tree, document: Tree)

  function TakeMember(ms: seq<Keyed<Tree>>, tail: Tail, i: nat): Tree
    requires i < |ms|
  {
    Group(RemoveAt(ms, i), Without(tail, |ms|, i))
  }

  /** Taking the child named by a decoded token out of its parent. */
  function TakeChild(parent: Tree, child: Text): Option<Taken> {
    match parent
    case List(items) =>
      (match DecodeIndex(child)
       case None => None
       case Some(i) => if i < |items| then Some(Taken(items[i], List(RemoveAt(items, i)))) else None)
    case Group(ms, tail) =>
      (match FindKey(ms, 0, child, false)
       case None => None
       case Some(i) => Some(Taken(ms[i].value, TakeMember(ms, tail, i))))
    case Leaf(_) => None
  }

  /** `detach_path`. */
  function TakePath(doc: Tree, path: Text, caseSensitive: bool): Option<Taken> {
    match LastSlash(path)
    case None => None
    case Some(k) =>
      match Locate(Plain(doc), path[..k], caseSensitive)
      case None => None
      case Some(at) =>
        match TakeChild(GetTree(doc, at), DecodeInPlace(path[k + 1..]))
        case None => None
        case Some(d) => Some(Taken(d.item, SetTree(doc, at, d.document)))
  }

  /** The status that the patch function returns, and the document it leaves; or a write through a pointer that has been
      left behind at an item that is not in the list any more, of which the model says nothing further. */
  datatype Effect = Effect(status: nat, document: Tree) | Stray

  /** `add_item_to_array` on the members of an object. */
  function Append(ms: seq<Keyed<Tree>>, tail: Tail, m: Keyed<Tree>): Effect {
    if ms != [] && (tail.Gone? || (tail.At? && tail.index >= |ms|)) then Stray
    else Effect(0, Group(Appended(ms, tail, m), TailAppended(tail, |ms|)))
  }

  /** An object without the member that is to be overwritten. */
  function Cleared(ms: seq<Keyed<Tree>>, tail: Tail, child: Text, caseSensitive: bool): (seq<Keyed<Tree>>, Tail) {
    match FindKey(ms, 0, child, caseSensitive)
    case None => (ms, tail)
    case Some(i) => (RemoveAt(ms, i), Without(tail, |ms|, i))
  }

  /** Adding a value to its parent under a decoded token. */
  function LinkChild(parent: Tree, child: Text, value: Tree, caseSensitive: bool): Effect {
    match parent
    case List(items) =>
      if child == "-" then Effect(0, List(items + [value])) else
      (match DecodeIndex(child)
       case None => Effect(11, parent)
       case Some(i) => if i <= |items| then Effect(0, List(InsertAt(items, i, value))) else Effect(10, parent))
    case Group(ms, tail) =>
      var (rest, tail') := Cleared(ms, tail, child, caseSensitive);
      Append(rest, tail', Keyed(child, value))
    case Leaf(_) => Effect(9, parent)
  }

  /** The last part of `apply_patch`. */
  function LinkPath(doc: Tree, path: Text, value: Tree, caseSensitive: bool): Effect {
    match LastSlash(path)
    case None => Effect(9, doc)
    case Some(k) =>
      match Locate(Plain(doc), path[..k], caseSensitive)
      case None => Effect(9, doc)
      case Some(at) =>
        match LinkChild(GetTree(doc, at), DecodeInPlace(path[k + 1..]), value, caseSensitive)
        case Stray => Stray
        case Effect(status, parent) => Effect(status, SetTree(doc, at, parent))
  }

  // ---------------------------------------------------------------------------------------------
  // One patch and lists of them
  // ---------------------------------------------------------------------------------------------

  /** How far a patch gets before something is added: to its end, or to an item and the path where to add it. */
  datatype Stage = Done(status: nat, document: Tree) | Adding(document: Tree, path: Text, item: Tree)

  function WithOwnValue(doc: Tree, patch: Value, path: Text, caseSensitive: bool): Stage {
    match GetMember(patch, "value", caseSensitive)
    case None => Done(7, doc)
    case Some(value) => if path == [] then Done(0, Fresh(value)) else Adding(doc, path, Fresh(value))
  }

  function Taking(doc: Tree, from: Text, path: Text, caseSensitive: bool): Stage {
    match TakePath(doc, from, caseSensitive)
    case None => Done(5, doc)
    case Some(d) => Adding(d.document, path, d.item)
  }

  function Duplicating(doc: Tree, from: Text, path: Text, caseSensitive: bool): Stage {
    match Locate(Plain(doc), from, caseSensitive)
    case None => Done(5, doc)
    case Some(at) => Adding(doc, path, Fresh(GetAt(Plain(doc), at)))
  }

  function FromElsewhere(doc: Tree, patch: Value, op: Operation, path: Text, caseSensitive: bool): Stage {
    match GetMember(patch, "from", caseSensitive)
    case None => Done(4, doc)
    case Some(Str(from)) =>
      if op == MOVE then Taking(doc, from, path, caseSensitive) else Duplicating(doc, from, path, caseSensitive)
    case Some(_) => Done(5, doc)
  }

  /** A test compares the node, which sorts it, with the patch's own value. */
  function Tested(doc: Tree, patch: Value, path: Text, caseSensitive: bool): Stage {
    match Locate(Plain(doc), path, caseSensitive)
    case None => Done(1, doc)
    case Some(at) =>
      match GetMember(patch, "value", caseSensitive)
      case None => Done(1, doc)
      case Some(value) =>
        var r := Compared(GetTree(doc, at), Fresh(value), caseSensitive);
        Done(if r.same then 0 else 1, SetTree(doc, at, r.a))
  }

  function PreparedOperation(doc: Tree, patch: Value, op: Operation, path: Text, caseSensitive: bool): Stage {
    match op
    case INVALID => Done(3, doc)
    case TEST => Tested(doc, patch, path, caseSensitive)
    case REMOVE =>
      if path == [] then Done(0, Leaf(Invalid)) else
      (match TakePath(doc, path, caseSensitive)
       case None => Done(13, doc)
       case Some(d) => Done(0, d.document))
    case REPLACE =>
      if path == [] then WithOwnValue(doc, patch, path, caseSensitive) else
      (match TakePath(doc, path, caseSensitive)
       case None => Done(13, doc)
       case Some(d) => WithOwnValue(d.document, patch, path, caseSensitive))
    case ADD => WithOwnValue(doc, patch, path, caseSensitive)
    case _ => FromElsewhere(doc, patch, op, path, caseSensitive)
  }

  function Prepared(doc: Tree, patch: Value, caseSensitive: bool): Stage {
    match GetMember(patch, "path", caseSensitive)
    case Some(Str(path)) => PreparedOperation(doc, patch, DecodeOperation(patch, caseSensitive), path, caseSensitive)
    case _ => Done(2, doc)
  }

  /** `apply_patch`. */
  function ApplyTree(doc: Tree, patch: Value, caseSensitive: bool): Effect {
    match Prepared(doc, patch, caseSensitive)
    case Done(status, doc') => Effect(status, doc')
    case Adding(doc', path, item) => LinkPath(doc', path, item, caseSensitive)
  }

  /** Patches one after the other, up to the first that fails. */
  function ApplyTreeAll(doc: Tree, patches: seq<Value>, caseSensitive: bool): Effect
    decreases |patches|
  {
    if patches == [] then Effect(0, doc) else
    var first := ApplyTree(doc, patches[0], caseSensitive);
    if first.Stray? || first.status != 0 then first else ApplyTreeAll(first.document, patches[1..], caseSensitive)
  }

  // ---------------------------------------------------------------------------------------------
  // Where an added member is kept
  // ---------------------------------------------------------------------------------------------

  /** What is added at this path goes behind the last member of its parent, if that is an object: the parent has no
      other member, or its first child points at its last. */
  predicate Links(doc: Tree, path: Text, caseSensitive: bool) {
    match LastSlash(path)
    case None => true
    case Some(k) =>
      match Locate(Plain(doc), path[..k], caseSensitive)
      case None => true
      case Some(at) =>
        match GetTree(doc, at)
        case Group(ms, tail) =>
          var (rest, tail') := Cleared(ms, tail, DecodeInPlace(path[k + 1..]), caseSensitive);
          Right(tail', |rest|)
        case _ => true
  }

  /** If the patch comes to add something, it is linked behind the last member. */
  predicate Keeps(doc: Tree, patch: Value, caseSensitive: bool) {
    match Prepared(doc, patch, caseSensitive)
    case Done(_, _) => true
    case Adding(doc', path, _) => Links(doc', path, caseSensitive)
  }

  lemma {:induction false} SameKeyFound(ms: seq<Keyed<Tree>>, i: nat, name: Text, caseSensitive: bool)
    requires i <= |ms|
    ensures FindKey(PlainMembers(ms), i, name, caseSensitive) == FindKey(ms, i, name, caseSensitive)
    decreases |ms| - i
  {
    if i < |ms| {
      SameKeyFound(ms, i + 1, name, caseSensitive);
    }
  }

  lemma PlainRemoved(ms: seq<Keyed<Tree>>, i: nat)
    requires i < |ms|
    ensures PlainMembers(RemoveAt(ms, i)) == RemoveAt(PlainMembers(ms), i)
  {
    PlainParts(ms, i);
    PlainParts(ms, i + 1);
    PlainJoined(ms[..i], ms[i + 1..]);
  }

  lemma PlainParts(ms: seq<Keyed<Tree>>, i: nat)
    requires i <= |ms|
    ensures PlainMembers(ms[..i]) == PlainMembers(ms)[..i] && PlainMembers(ms[i..]) == PlainMembers(ms)[i..]
  {
    hide Plain, PlainMembers;
  }

  lemma PlainJoined(a: seq<Keyed<Tree>>, b: seq<Keyed<Tree>>)
    ensures PlainMembers(a + b) == PlainMembers(a) + PlainMembers(b)
  {
    hide Plain, PlainMembers;
  }

  lemma PlainItemParts(items: seq<Tree>, i: nat)
    requires i <= |items|
    ensures PlainItems(items[..i]) == PlainItems(items)[..i] && PlainItems(items[i..]) == PlainItems(items)[i..]
  {
    hide Plain, PlainItems;
  }

  lemma PlainItemsJoined(a: seq<Tree>, b: seq<Tree>)
    ensures PlainItems(a + b) == PlainItems(a) + PlainItems(b)
  {
    hide Plain, PlainItems;
  }

  lemma PlainItemRemoved(items: seq<Tree>, i: nat)
    requires i < |items|
    ensures PlainItems(RemoveAt(items, i)) == RemoveAt(PlainItems(items), i)
  {
    hide PlainItems;
    PlainItemParts(items, i);
    PlainItemParts(items, i + 1);
    PlainItemsJoined(items[..i], items[i + 1..]);
  }

  /** Removing does the same to the document whatever its links are. */
  lemma TakeIsDetach(doc: Tree, path: Text, caseSensitive: bool)
    ensures DetachPath(Plain(doc), path, caseSensitive)
         == match TakePath(doc, path, caseSensitive)
            case None => None
            case Some(d) => Some(Detached(Plain(d.item), Plain(d.document)))
  {
    hide DecodeInPlace, LastSlash, Locate, DetachChild, TakeChild;
    if LastSlash(path).Some? {
      var k := LastSlash(path).value;
      var at := Locate(Plain(doc), path[..k], caseSensitive);
      if at.Some? {
        TakeChildIsDetach(GetTree(doc, at.value), DecodeInPlace(path[k + 1..]));
      }
    }
  }

  lemma TakeChildIsDetach(parent: Tree, child: Text)
    ensures DetachChild(Plain(parent), child)
         == match TakeChild(parent, child)
            case None => None
            case Some(d) => Some(Detached(Plain(d.item), Plain(d.document)))
  {
    match parent {
      case List(items) =>
        TakeItemIsDetach(items, child);
      case Group(ms, tail) =>
        TakeMemberIsDetach(ms, tail, child);
      case Leaf(_) =>
    }
  }

  lemma TakeItemIsDetach(items: seq<Tree>, child: Text)
    ensures DetachChild(Array(PlainItems(items)), child)
         == match TakeChild(List(items), child)
            case None => None
            case Some(d) => Some(Detached(Plain(d.item), Plain(d.document)))
  {
    hide DecodeIndex, PlainItems, RemoveAt;
    var i := DecodeIndex(child);
    if i.Some? && i.value < |items| {
      PlainItemRemoved(items, i.value);
    }
  }

  lemma TakeMemberIsDetach(ms: seq<Keyed<Tree>>, tail: Tail, child: Text)
    ensures DetachChild(Object(PlainMembers(ms)), child)
         == match TakeChild(Group(ms, tail), child)
            case None => None
            case Some(d) => Some(Detached(Plain(d.item), Plain(d.document)))
  {
    hide FindKey;
    SameKeyFound(ms, 0, child, false);
    var i := FindKey(ms, 0, child, false);
    if i.Some? {
      PlainRemoved(ms, i.value);
    }
  }

  lemma {:induction false} GetAfterSet(v: Value, at: Path, w: Value)
    requires ValidPath(v, at)
    ensures ValidPath(SetAt(v, at, w), at) && GetAt(SetAt(v, at, w), at) == w
    decreases |at|
  {
    if at != [] {
      GetAfterSet(Child(v, at[0]), at[1..], w);
    }
  }

  /** The effect is that of adding to a document that is only a value. */
  predicate AddsLike(e: Effect, a: Applied) {
    e.Effect? && Applied(e.status, Plain(e.document)) == a
  }

  lemma AppendIsAppend(ms: seq<Keyed<Tree>>, tail: Tail, m: Keyed<Tree>)
    ensures AddsLike(Append(ms, tail, m), Applied(0, Object(PlainMembers(ms) + [Keyed(m.key, Plain(m.value))])))
       <==> Right(tail, |ms|)
    ensures var e := Append(ms, tail, m);
            e.Effect? && !Right(tail, |ms|) ==>
              e.status == 0 && e.document.Group? && |e.document.members| <= |ms|
  {
    var pm := Keyed(m.key, Plain(m.value));
    assert |PlainMembers(ms) + [pm]| == |ms| + 1;
    assert PlainMembers(ms + [m]) == PlainMembers(ms) + [pm];
    if ms == [] {
      assert ms + [m] == [m];
    } else if tail.At? ==> tail.index < |ms| {
      AppendedIsLast(ms, tail, m);
    }
  }

  lemma LinkChildIsAdd(parent: Tree, child: Text, value: Tree, caseSensitive: bool)
    ensures AddsLike(LinkChild(parent, child, value, caseSensitive),
                     AddChild(Plain(parent), child, Plain(value), caseSensitive))
       <==> match parent
            case Group(ms, tail) =>
              (var (rest, tail') := Cleared(ms, tail, child, caseSensitive); Right(tail', |rest|))
            case _ => true
  {
    hide DecodeIndex;
    match parent {
      case List(items) =>
        var i := DecodeIndex(child);
        if child == "-" {
          assert PlainItems(items + [value]) == PlainItems(items) + [Plain(value)];
        } else if i.Some? && i.value <= |items| {
          PlainItemParts(items, i.value);
          PlainItemsJoined(items[..i.value], [value]);
          PlainItemsJoined(items[..i.value] + [value], items[i.value..]);
          assert PlainItems([value]) == [Plain(value)];
        }
      case Group(ms, tail) =>
        hide Append;
        SameKeyFound(ms, 0, child, caseSensitive);
        var i := FindKey(ms, 0, child, caseSensitive);
        if i.Some? {
          PlainRemoved(ms, i.value);
        }
        var (rest, tail') := Cleared(ms, tail, child, caseSensitive);
        AppendIsAppend(rest, tail', Keyed(child, value));
      case Leaf(_) =>
    }
  }

  lemma LinkIsAdd(doc: Tree, path: Text, value: Tree, caseSensitive: bool)
    ensures AddsLike(LinkPath(doc, path, value, caseSensitive), AddPath(Plain(doc), path, Plain(value), caseSensitive))
       <==> Links(doc, path, caseSensitive)
  {
    hide DecodeInPlace, LastSlash, Locate, AddChild, LinkChild, Cleared;
    if LastSlash(path).Some? {
      var k := LastSlash(path).value;
      var at := Locate(Plain(doc), path[..k], caseSensitive);
      if at.Some? {
        var parent, child := GetTree(doc, at.value), DecodeInPlace(path[k + 1..]);
        LinkChildIsAdd(parent, child, value, caseSensitive);
        var e := LinkChild(parent, child, value, caseSensitive);
        var a := AddChild(Plain(parent), child, Plain(value), caseSensitive);
        GetAfterSet(Plain(doc), at.value, a.document);
        if e.Effect? {
          GetAfterSet(Plain(doc), at.value, Plain(e.document));
        }
      }
    }
  }

  /** What comes of a stage if the rest is done on values. */
  function Finished(stage: Stage, caseSensitive: bool): Applied {
    match stage
    case Done(status, doc) => Applied(status, Plain(doc))
    case Adding(doc, path, item) => AddPath(Plain(doc), path, Plain(item), caseSensitive)
  }

  lemma OwnValueFinished(doc: Tree, patch: Value, path: Text, caseSensitive: bool)
    ensures Finished(WithOwnValue(doc, patch, path, caseSensitive), caseSensitive)
         == if path == [] then ReplaceRoot(Plain(doc), patch, caseSensitive)
            else ApplyValue(Plain(doc), patch, path, caseSensitive)
  {
    hide GetMember, AddPath;
  }

  lemma TakingFinished(doc: Tree, from: Text, path: Text, caseSensitive: bool)
    ensures Finished(Taking(doc, from, path, caseSensitive), caseSensitive)
         == MoveFrom(Plain(doc), from, path, caseSensitive)
  {
    hide AddPath, DetachPath, TakePath, Plain;
    TakeIsDetach(doc, from, caseSensitive);
  }

  lemma DuplicatingFinished(doc: Tree, from: Text, path: Text, caseSensitive: bool)
    ensures Finished(Duplicating(doc, from, path, caseSensitive), caseSensitive)
         == CopyFrom(Plain(doc), from, path, caseSensitive)
  {
    hide AddPath, Locate, Plain, GetAt;
  }

  lemma FromElsewhereFinished(doc: Tree, patch: Value, op: Operation, path: Text, caseSensitive: bool)
    ensures Finished(FromElsewhere(doc, patch, op, path, caseSensitive), caseSensitive)
         == ApplyFrom(Plain(doc), patch, op, path, caseSensitive)
  {
    hide GetMember, AddPath, Plain, Taking, Duplicating, MoveFrom, CopyFrom;
    var from := GetMember(patch, "from", caseSensitive);
    if from.Some? && from.value.Str? {
      TakingFinished(doc, from.value.s, path, caseSensitive);
      DuplicatingFinished(doc, from.value.s, path, caseSensitive);
    }
  }

  lemma OperationFinished(doc: Tree, patch: Value, op: Operation, path: Text, caseSensitive: bool)
    requires op != TEST
    ensures Finished(PreparedOperation(doc, patch, op, path, caseSensitive), caseSensitive)
         == ApplyOperation(Plain(doc), patch, op, path, caseSensitive)
  {
    assert Plain(Leaf(Invalid)) == Invalid;
    hide AddPath, DetachPath, TakePath, WithOwnValue, FromElsewhere, ApplyFrom, ApplyValue, ReplaceRoot, Plain;
    TakeIsDetach(doc, path, caseSensitive);
    OwnValueFinished(doc, patch, path, caseSensitive);
    FromElsewhereFinished(doc, patch, op, path, caseSensitive);
    var taken := TakePath(doc, path, caseSensitive);
    if taken.Some? {
      OwnValueFinished(taken.value.document, patch, path, caseSensitive);
    }
  }

  /** Until something is added, the document changes as its value does. */
  lemma PreparedIsApply(doc: Tree, patch: Value, caseSensitive: bool)
    requires DecodeOperation(patch, caseSensitive) != TEST
    ensures Finished(Prepared(doc, patch, caseSensitive), caseSensitive) == ApplyPatch(Plain(doc), patch, caseSensitive)
  {
    hide DecodeOperation, GetMember, AddPath, Plain, PreparedOperation, ApplyOperation;
    var path := GetMember(patch, "path", caseSensitive);
    if path.Some? && path.value.Str? {
      OperationFinished(doc, patch, DecodeOperation(patch, caseSensitive), path.value.s, caseSensitive);
    }
  }

  /** A patch that adds, removes, replaces, moves or copies does to a document with links what the patch function
      says of its value, exactly if what it adds is linked behind the last member. */
  lemma AppliesExactly(doc: Tree, patch: Value, caseSensitive: bool)
    requires DecodeOperation(patch, caseSensitive) != TEST
    ensures AddsLike(ApplyTree(doc, patch, caseSensitive), ApplyPatch(Plain(doc), patch, caseSensitive))
       <==> Keeps(doc, patch, caseSensitive)
  {
    hide Prepared, ApplyPatch, LinkPath, AddPath, Links, DecodeOperation;
    PreparedIsApply(doc, patch, caseSensitive);
    match Prepared(doc, patch, caseSensitive) {
      case Done(_, _) =>
      case Adding(doc', path, item) =>
        LinkIsAdd(doc', path, item, caseSensitive);
    }
  }

  // ---------------------------------------------------------------------------------------------
  // Documents whose links are all right
  // ---------------------------------------------------------------------------------------------

  lemma TakenIsSound(doc: Tree, path: Text, caseSensitive: bool)
    requires Sound(doc)
    ensures var d := TakePath(doc, path, caseSensitive); d.Some? ==> Sound(d.value.item) && Sound(d.value.document)
  {
    hide DecodeInPlace, LastSlash, Locate, TakeChild;
    if TakePath(doc, path, caseSensitive).Some? {
      var k := LastSlash(path).value;
      var at := Locate(Plain(doc), path[..k], caseSensitive).value;
      var taken := TakeChild(GetTree(doc, at), DecodeInPlace(path[k + 1..])).value;
      SoundBelow(doc, at, taken.document);
      TakenChildIsSound(GetTree(doc, at), DecodeInPlace(path[k + 1..]));
    }
  }

  lemma TakenChildIsSound(parent: Tree, child: Text)
    requires Sound(parent)
    ensures var d := TakeChild(parent, child); d.Some? ==> Sound(d.value.item) && Sound(d.value.document)
  {
    match parent {
      case List(items) =>
        hide DecodeIndex;
      case Group(ms, tail) =>
        var i := FindKey(ms, 0, child, false);
        if i.Some? {
          RemovedIsSound(ms, tail, i.value);
        }
      case Leaf(_) =>
    }
  }

  lemma RemovedIsSound(ms: seq<Keyed<Tree>>, tail: Tail, i: nat)
    requires i < |ms| && Sound(Group(ms, tail))
    ensures Sound(TakeMember(ms, tail, i)) && Sound(ms[i].value)
  {
    WithoutKeepsRight(tail, |ms|, i);
  }

  lemma ClearedIsSound(ms: seq<Keyed<Tree>>, tail: Tail, child: Text, caseSensitive: bool)
    requires Sound(Group(ms, tail))
    ensures var (rest, tail') := Cleared(ms, tail, child, caseSensitive); Sound(Group(rest, tail'))
  {
    var i := FindKey(ms, 0, child, caseSensitive);
    hide FindKey;
    if i.Some? {
      RemovedIsSound(ms, tail, i.value);
    }
  }

  lemma LinkedChildIsSound(parent: Tree, child: Text, value: Tree, caseSensitive: bool)
    requires Sound(parent) && Sound(value)
    ensures var e := LinkChild(parent, child, value, caseSensitive); e.Effect? && Sound(e.document)
  {
    hide DecodeIndex;
    match parent {
      case List(items) =>
      case Group(ms, tail) =>
        ClearedIsSound(ms, tail, child, caseSensitive);
        var (rest, tail') := Cleared(ms, tail, child, caseSensitive);
        hide Cleared;
        assert Append(rest, tail', Keyed(child, value)).Effect?;
      case Leaf(_) =>
    }
  }

  /** In such a document whatever is added is linked behind the last member, and the links stay right. */
  lemma LinkedIsSound(doc: Tree, path: Text, value: Tree, caseSensitive: bool)
    requires Sound(doc) && Sound(value)
    ensures Links(doc, path, caseSensitive)
    ensures var e := LinkPath(doc, path, value, caseSensitive); e.Effect? && Sound(e.document)
  {
    hide DecodeInPlace, LastSlash, Locate, LinkChild, Cleared;
    if LastSlash(path).Some? {
      var k := LastSlash(path).value;
      var at := Locate(Plain(doc), path[..k], caseSensitive);
      if at.Some? {
        var parent, child := GetTree(doc, at.value), DecodeInPlace(path[k + 1..]);
        SoundBelow(doc, at.value, parent);
        LinkedChildIsSound(parent, child, value, caseSensitive);
        SoundBelow(doc, at.value, LinkChild(parent, child, value, caseSensitive).document);
        if parent.Group? {
          ClearedIsSound(parent.members, parent.tail, child, caseSensitive);
        }
      }
    }
  }

  predicate SoundStage(stage: Stage) {
    Sound(stage.document) && (stage.Adding? ==> Sound(stage.item))
  }

  lemma FromElsewhereIsSound(doc: Tree, patch: Value, op: Operation, path: Text, caseSensitive: bool)
    requires Sound(doc)
    ensures SoundStage(FromElsewhere(doc, patch, op, path, caseSensitive))
  {
    hide GetMember, TakePath, Locate, GetAt, Sound, Plain;
    var from := GetMember(patch, "from", caseSensitive);
    if from.Some? && from.value.Str? {
      TakenIsSound(doc, from.value.s, caseSensitive);
    }
  }

  lemma OwnValueIsSound(doc: Tree, patch: Value, path: Text, caseSensitive: bool)
    requires Sound(doc)
    ensures SoundStage(WithOwnValue(doc, patch, path, caseSensitive))
  {
    hide GetMember, Sound, Plain;
  }

  lemma OperationIsSound(doc: Tree, patch: Value, op: Operation, path: Text, caseSensitive: bool)
    requires Sound(doc) && op != TEST
    ensures SoundStage(PreparedOperation(doc, patch, op, path, caseSensitive))
  {
    assert Sound(Leaf(Invalid));
    hide TakePath, FromElsewhere, WithOwnValue, Tested, Sound;
    FromElsewhereIsSound(doc, patch, op, path, caseSensitive);
    OwnValueIsSound(doc, patch, path, caseSensitive);
    var taken := TakePath(doc, path, caseSensitive);
    TakenIsSound(doc, path, caseSensitive);
    if taken.Some? {
      OwnValueIsSound(taken.value.document, patch, path, caseSensitive);
    }
  }

  lemma PreparedIsSound(doc: Tree, patch: Value, caseSensitive: bool)
    requires Sound(doc) && DecodeOperation(patch, caseSensitive) != TEST
    ensures SoundStage(Prepared(doc, patch, caseSensitive))
  {
    hide DecodeOperation, GetMember, PreparedOperation, Sound;
    var path := GetMember(patch, "path", caseSensitive);
    if path.Some? && path.value.Str? {
      OperationIsSound(doc, patch, DecodeOperation(patch, caseSensitive), path.value.s, caseSensitive);
    }
  }

  /** As long as nothing is compared, the links of a document stay right, and every patch does what the patch function
      says. */
  lemma SoundStays(doc: Tree, patch: Value, caseSensitive: bool)
    requires Sound(doc) && DecodeOperation(patch, caseSensitive) != TEST
    ensures var e := ApplyTree(doc, patch, caseSensitive);
            AddsLike(e, ApplyPatch(Plain(doc), patch, caseSensitive)) && Sound(e.document)
  {
    hide Prepared, ApplyPatch, LinkPath, Links, DecodeOperation, Sound;
    PreparedIsSound(doc, patch, caseSensitive);
    AppliesExactly(doc, patch, caseSensitive);
    match Prepared(doc, patch, caseSensitive) {
      case Done(_, _) =>
      case Adding(doc', path, item) =>
        LinkedIsSound(doc', path, item, caseSensitive);
    }
  }

  /** So does every list of patches without a test. */
  lemma {:induction false} SoundStaysThroughout(doc: Tree, patches: seq<Value>, caseSensitive: bool)
    requires Sound(doc) && forall p :: p in patches ==> DecodeOperation(p, caseSensitive) != TEST
    ensures var e := ApplyTreeAll(doc, patches, caseSensitive);
            AddsLike(e, ApplyAll(Plain(doc), patches, caseSensitive)) && Sound(e.document)
    decreases |patches|
  {
    hide ApplyTree, ApplyPatch, DecodeOperation, Sound, Plain;
    if patches != [] {
      SoundStays(doc, patches[0], caseSensitive);
      var first := ApplyTree(doc, patches[0], caseSensitive);
      if first.status == 0 {
        SoundStaysThroughout(first.document, patches[1..], caseSensitive);
      }
    }
  }

  // ---------------------------------------------------------------------------------------------
  // The document that is patched in place
  // ---------------------------------------------------------------------------------------------

  /** What a run that ends with this status and document has done; without a status, it has come upon a stray
      pointer. */
  predicate Reaches(e: Effect, status: Option<nat>, document: Tree) {
    match e
    case Effect(s, d) => status == Some(s) && document == d
    case Stray => status == None
  }

  class Document {
    var root: Tree

    constructor (root: Tree)
      ensures this.root == root
    {
      this.root := root;
    }

    method Detach(path: Text, caseSensitive: bool) returns (item: Option<Tree>)
      modifies this
      ensures item == (match TakePath(old(root), path, caseSensitive) case None => None case Some(d) => Some(d.item))
      ensures root == (match TakePath(old(root), path, caseSensitive) case None => old(root) case Some(d) => d.document)
    {
      var slash := LastSlash(path);
      if slash.None? {
        return None;
      }
      var at := GetItemFromPointer(Plain(root), path[..slash.value], caseSensitive);
      if at.None? {
        return None;
      }
      var taken := TakeChild(GetTree(root, at.value), DecodeInPlace(path[slash.value + 1..]));
      if taken.None? {
        return None;
      }
      root := SetTree(root, at.value, taken.value.document);
      item := Some(taken.value.item);
    }

    method Add(path: Text, value: Tree, caseSensitive: bool) returns (status: Option<nat>)
      modifies this
      ensures Reaches(LinkPath(old(root), path, value, caseSensitive), status, root)
    {
      var slash := LastSlash(path);
      if slash.None? {
        return Some(9);
      }
      var at := GetItemFromPointer(Plain(root), path[..slash.value], caseSensitive);
      if at.None? {
        return Some(9);
      }
      var linked := LinkChild(GetTree(root, at.value), DecodeInPlace(path[slash.value + 1..]), value, caseSensitive);
      if linked.Stray? {
        return None;
      }
      root := SetTree(root, at.value, linked.document);
      status := Some(linked.status);
    }

    /** `compare_json` on the node at the path and the patch's own value. */
    method Test(patch: Value, path: Text, caseSensitive: bool) returns (status: nat)
      modifies this
      ensures Done(status, root) == Tested(old(root), patch, path, caseSensitive)
    {
      var at := GetItemFromPointer(Plain(root), path, caseSensitive);
      var value := GetMember(patch, "value", caseSensitive);
      if at.None? || value.None? {
        return 1;
      }
      var r := LinkedTree.CompareJson(GetTree(root, at.value), Fresh(value.value), caseSensitive);
      root := SetTree(root, at.value, r.a);
      status := if r.same then 0 else 1;
    }

    /** The value that a patch adds: its own, or a copy of another node, or that node itself taken out. */
    method Fetch(patch: Value, opcode: Operation, path: Text, caseSensitive: bool)
      returns (status: nat, value: Option<Tree>)
      requires opcode == MOVE || opcode == COPY || ((opcode == ADD || opcode == REPLACE) && path != [])
      modifies this
      ensures status == 0 ==> value.Some?
      ensures var stage := if opcode == MOVE || opcode == COPY
                           then FromElsewhere(old(root), patch, opcode, path, caseSensitive)
                           else WithOwnValue(old(root), patch, path, caseSensitive);
              stage == if status == 0 then Adding(root, path, value.value) else Done(status, root)
    {
      hide TakePath, Locate, GetMember;
      value := None;
      if opcode == MOVE || opcode == COPY {
        var from := GetMember(patch, "from", caseSensitive);
        if from.None? {
          return 4, None;
        }
        if !from.value.Str? {
          return 5, None;
        }
        if opcode == MOVE {
          value := Detach(from.value.s, caseSensitive);
        } else {
          var at := GetItemFromPointer(Plain(root), from.value.s, caseSensitive);
          value := if at.None? then None else Some(Fresh(GetAt(Plain(root), at.value)));
        }
        status := if value.None? then 5 else 0;
      } else {
        var own := GetMember(patch, "value", caseSensitive);
        value := if own.None? then None else Some(Fresh(own.value));
        status := if own.None? then 7 else 0;
      }
    }

    method Apply(patch: Value, caseSensitive: bool) returns (status: Option<nat>)
      modifies this
      ensures Reaches(ApplyTree(old(root), patch, caseSensitive), status, root)
    {
      hide TakePath, LinkPath, GetMember, DecodeOperation, Tested, FromElsewhere;
      var path := GetMember(patch, "path", caseSensitive);
      if path.None? || !path.value.Str? {
        return Some(2);
      }
      var opcode := DecodeOperation(patch, caseSensitive);
      if opcode == INVALID {
        return Some(3);
      } else if opcode == TEST {
        var tested := Test(patch, path.value.s, caseSensitive);
        return Some(tested);
      }
      if path.value.s == [] {
        if opcode == REMOVE {
          root := Leaf(Invalid);
          return Some(0);
        }
        if opcode == REPLACE || opcode == ADD {
          var replacement := GetMember(patch, "value", caseSensitive);
          if replacement.None? {
            return Some(7);
          }
          root := Fresh(replacement.value);
          return Some(0);
        }
      }
      if opcode == REMOVE || opcode == REPLACE {
        var old_item := Detach(path.value.s, caseSensitive);
        if old_item.None? {
          return Some(13);
        }
        if opcode == REMOVE {
          return Some(0);
        }
      }
      var value: Option<Tree>, failed: nat;
      failed, value := Fetch(patch, opcode, path.value.s, caseSensitive);
      if failed != 0 {
        return Some(failed);
      }
      status := Add(path.value.s, value.value, caseSensitive);
    }

    /** `cJSONUtils_ApplyPatches` and its case-sensitive variant, on an array of patches. */
    method ApplyPatches(patches: Value, caseSensitive: bool) returns (status: Option<nat>)
      modifies this
      ensures patches.Array? ==> Reaches(ApplyTreeAll(old(root), patches.items, caseSensitive), status, root)
      ensures !patches.Array? ==> status == Some(1) && root == old(root)
    {
      hide ApplyTree;
      if !patches.Array? {
        return Some(1);
      }
      var i := 0;
      while i < |patches.items|
        invariant 0 <= i <= |patches.items|
        invariant ApplyTreeAll(old(root), patches.items, caseSensitive)
               == ApplyTreeAll(root, patches.items[i..], caseSensitive)
      {
        status := Apply(patches.items[i], caseSensitive);
        if status != Some(0) {
          return;
        }
        assert patches.items[i..][1..] == patches.items[i + 1..];
        i := i + 1;
      }
      status := Some(0);
    }
  }
}
