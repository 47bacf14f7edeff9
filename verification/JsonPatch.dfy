/** JSON Patch in cJSON_Utils.c: applying patch documents to a document in place. */
module JsonPatch {
  import opened Bytes
  import opened Json
  import opened JsonPointer
  import opened PointerDecode
  import opened JsonCompare

  // ---------------------------------------------------------------------------------------------
  // What patches do, as functions
  // ---------------------------------------------------------------------------------------------

  /** `get_object_item`: the first member, from number `i` on, of this name. */
  function FindKey<T>(ms: seq<Keyed<T>>, i: nat, name: Text, caseSensitive: bool): (r: Option<nat>)
    requires i <= |ms|
    ensures r.Some? ==> i <= r.value < |ms|
    decreases |ms| - i
  {
    if i == |ms| then None
    else if SameKey(name, ms[i].key, caseSensitive) then Some(i)
    else FindKey(ms, i + 1, name, caseSensitive)
  }

  function GetMember(v: Value, name: Text, caseSensitive: bool): Option<Value> {
    if !v.Object? then None else
    match FindKey(v.members, 0, name, caseSensitive)
    case None => None
    case Some(i) => Some(v.members[i].value)
  }

  function RemoveAt<T>(s: seq<T>, i: nat): seq<T>
    requires i < |s|
  {
    s[..i] + s[i + 1..]
  }

  function InsertAt<T>(s: seq<T>, i: nat, x: T): seq<T>
    requires i <= |s|
  {
    s[..i] + [x] + s[i..]
  }

  /** `strrchr` for a slash. */
  function LastSlash(p: Text): (r: Option<nat>)
    ensures r.Some? ==> r.value < |p|
  {
    if p == [] then None
    else if p[|p| - 1] == '/' then Some(|p| - 1)
    else LastSlash(p[..|p| - 1])
  }

  /** A node that has been taken out, and the document without it. */
  datatype Detached = Detached(item: Value, document: Value)

  /** Taking the child named by a decoded token out of its parent: members are found without regard to case. */
  function DetachChild(parent: Value, child: Text): Option<Detached> {
    match parent
    case Array(items) =>
      (match DecodeIndex(child)
       case None => None
       case Some(i) => if i < |items| then Some(Detached(items[i], Array(RemoveAt(items, i)))) else None)
    case Object(ms) =>
      (match FindKey(ms, 0, child, false)
       case None => None
       case Some(i) => Some(Detached(ms[i].value, Object(RemoveAt(ms, i)))))
    case _ => None
  }

  /** `detach_path`. */
  function DetachPath(doc: Value, path: Text, caseSensitive: bool): Option<Detached> {
    match LastSlash(path)
    case None => None
    case Some(k) =>
      match Locate(doc, path[..k], caseSensitive)
      case None => None
      case Some(at) =>
        match DetachChild(GetAt(doc, at), DecodeInPlace(path[k + 1..]))
        case None => None
        case Some(d) => Some(Detached(d.item, SetAt(doc, at, d.document)))
  }

  /** The status that the patch function returns, and the document it leaves. */
  datatype Applied = Applied(status: nat, document: Value)

  /** Adding a value to its parent under a decoded token. */
  function AddChild(parent: Value, child: Text, value: Value, caseSensitive: bool): Applied {
    match parent
    case Array(items) =>
      if child == "-" then Applied(0, Array(items + [value])) else
      (match DecodeIndex(child)
       case None => Applied(11, parent)
       case Some(i) => if i <= |items| then Applied(0, Array(InsertAt(items, i, value))) else Applied(10, parent))
    case Object(ms) =>
      var rest := match FindKey(ms, 0, child, caseSensitive) case None => ms case Some(i) => RemoveAt(ms, i);
      Applied(0, Object(rest + [Keyed(child, value)]))
    case _ => Applied(9, parent)
  }

  /** The last part of `apply_patch`. */
  function AddPath(doc: Value, path: Text, value: Value, caseSensitive: bool): Applied {
    match LastSlash(path)
    case None => Applied(9, doc)
    case Some(k) =>
      match Locate(doc, path[..k], caseSensitive)
      case None => Applied(9, doc)
      case Some(at) =>
        var added := AddChild(GetAt(doc, at), DecodeInPlace(path[k + 1..]), value, caseSensitive);
        Applied(added.status, SetAt(doc, at, added.document))
  }

  datatype Operation = INVALID | ADD | REMOVE | REPLACE | MOVE | COPY | TEST

  /** `decode_patch_operation`. */
  function DecodeOperation(patch: Value, caseSensitive: bool): Operation {
    match GetMember(patch, "op", caseSensitive)
    case Some(Str(s)) =>
      if s == "add" then ADD
      else if s == "remove" then REMOVE
      else if s == "replace" then REPLACE
      else if s == "move" then MOVE
      else if s == "copy" then COPY
      else if s == "test" then TEST
      else INVALID
    case _ => INVALID
  }

  function MoveFrom(doc: Value, from: Text, path: Text, caseSensitive: bool): Applied {
    match DetachPath(doc, from, caseSensitive)
    case None => Applied(5, doc)
    case Some(d) => AddPath(d.document, path, d.item, caseSensitive)
  }

  function CopyFrom(doc: Value, from: Text, path: Text, caseSensitive: bool): Applied {
    match Locate(doc, from, caseSensitive)
    case None => Applied(5, doc)
    case Some(at) => AddPath(doc, path, GetAt(doc, at), caseSensitive)
  }

  /** Moving or copying from another path. A path that is no string is treated as one that leads nowhere. */
  function ApplyFrom(doc: Value, patch: Value, op: Operation, path: Text, caseSensitive: bool): Applied {
    match GetMember(patch, "from", caseSensitive)
    case None => Applied(4, doc)
    case Some(Str(from)) =>
      if op == MOVE then MoveFrom(doc, from, path, caseSensitive) else CopyFrom(doc, from, path, caseSensitive)
    case Some(_) => Applied(5, doc)
  }

  /** Adding or replacing with the patch's own value. */
  function ApplyValue(doc: Value, patch: Value, path: Text, caseSensitive: bool): Applied {
    match GetMember(patch, "value", caseSensitive)
    case None => Applied(7, doc)
    case Some(value) => AddPath(doc, path, value, caseSensitive)
  }

  function TestAt(doc: Value, patch: Value, path: Text, caseSensitive: bool): bool {
    match Locate(doc, path, caseSensitive)
    case None => false
    case Some(at) =>
      match GetMember(patch, "value", caseSensitive)
      case None => false
      case Some(value) => Same(GetAt(doc, at), value, caseSensitive)
  }

  function ApplyOperation(doc: Value, patch: Value, op: Operation, path: Text, caseSensitive: bool): Applied {
    match op
    case INVALID => Applied(3, doc)
    case TEST => Applied(if TestAt(doc, patch, path, caseSensitive) then 0 else 1, doc)
    case REMOVE =>
      if path == [] then Applied(0, Invalid) else
      (match DetachPath(doc, path, caseSensitive)
       case None => Applied(13, doc)
       case Some(d) => Applied(0, d.document))
    case REPLACE =>
      if path == [] then ReplaceRoot(doc, patch, caseSensitive) else
      (match DetachPath(doc, path, caseSensitive)
       case None => Applied(13, doc)
       case Some(d) => ApplyValue(d.document, patch, path, caseSensitive))
    case ADD =>
      if path == [] then ReplaceRoot(doc, patch, caseSensitive) else ApplyValue(doc, patch, path, caseSensitive)
    case _ => ApplyFrom(doc, patch, op, path, caseSensitive)
  }

  /** `apply_patch`. */
  function ApplyPatch(doc: Value, patch: Value, caseSensitive: bool): Applied {
    match GetMember(patch, "path", caseSensitive)
    case Some(Str(path)) => ApplyOperation(doc, patch, DecodeOperation(patch, caseSensitive), path, caseSensitive)
    case _ => Applied(2, doc)
  }

  function ReplaceRoot(doc: Value, patch: Value, caseSensitive: bool): Applied {
    match GetMember(patch, "value", caseSensitive)
    case None => Applied(7, doc)
    case Some(value) => Applied(0, value)
  }

  /** Patches one after the other, up to the first that fails. */
  function ApplyAll(doc: Value, patches: seq<Value>, caseSensitive: bool): Applied
    decreases |patches|
  {
    if patches == [] then Applied(0, doc) else
    var first := ApplyPatch(doc, patches[0], caseSensitive);
    if first.status != 0 then first else ApplyAll(first.document, patches[1..], caseSensitive)
  }
}
