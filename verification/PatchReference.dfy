/** Section 4 of RFC 6902 on normal forms, and that the code which applies patches does what it says. */
module PatchReference {
  import opened Bytes
  import opened Json
  import opened JsonPointer
  import opened PointerDecode
  import opened PointerText
  import opened JsonNormal
  import opened JsonCompare
  import opened JsonPatch

  // ---------------------------------------------------------------------------------------------
  // The reference
  // ---------------------------------------------------------------------------------------------

  datatype Change = Add(value: Value) | Remove | Replace(value: Value)

  /** A change at the place that a list of unescaped reference tokens names. */
  datatype Edit = Edit(tokens: seq<Text>, change: Change)

  function NChild(d: NValue, t: Text): Option<NValue> {
    match d
    case NArray(items) => if IsIndex(t) && DigitsValue(t) < |items| then Some(items[DigitsValue(t)]) else None
    case NObject(m) => if t in m then Some(m[t]) else None
    case _ => None
  }

  function NWithChild(d: NValue, t: Text, c: NValue): NValue
    requires NChild(d, t).Some?
  {
    match d
    case NArray(items) => NArray(items[DigitsValue(t) := c])
    case NObject(m) => NObject(m[t := c])
  }

  /** The node that the tokens name. */
  function NGet(d: NValue, tokens: seq<Text>): Option<NValue>
    decreases |tokens|
  {
    if tokens == [] then Some(d) else
    match NChild(d, tokens[0])
    case None => None
    case Some(c) => NGet(c, tokens[1..])
  }

  /** Changing what one token of an array or object names; none if the standard calls it an error. */
  function ChangeHere(d: NValue, t: Text, change: Change): Option<NValue> {
    match d
    case NArray(items) =>
      if t == "-" && change.Add? then Some(NArray(items + [Norm(change.value)]))
      else if !IsIndex(t) || DigitsValue(t) > |items| then None
      else
        var i := DigitsValue(t);
        (match change
         case Add(v) => Some(NArray(InsertAt(items, i, Norm(v))))
         case Remove => if i < |items| then Some(NArray(RemoveAt(items, i))) else None
         case Replace(v) => if i < |items| then Some(NArray(items[i := Norm(v)])) else None)
    case NObject(m) =>
      (match change
       case Add(v) => Some(NObject(m[t := Norm(v)]))
       case Remove => if t in m then Some(NObject(m - {t})) else None
       case Replace(v) => if t in m then Some(NObject(m[t := Norm(v)])) else None)
    case _ => None
  }

  function Changed(d: NValue, tokens: seq<Text>, change: Change): Option<NValue>
    decreases |tokens|
  {
    if tokens == [] then (if change.Remove? then None else Some(Norm(change.value)))
    else if |tokens| == 1 then ChangeHere(d, tokens[0], change)
    else
      match NChild(d, tokens[0])
      case None => None
      case Some(c) =>
        match Changed(c, tokens[1..], change)
        case None => None
        case Some(r) => Some(NWithChild(d, tokens[0], r))
  }

  function ChangedAll(d: NValue, edits: seq<Edit>): Option<NValue>
    decreases |edits|
  {
    if edits == [] then Some(d) else
    match Changed(d, edits[0].tokens, edits[0].change)
    case None => None
    case Some(r) => ChangedAll(r, edits[1..])
  }

  /** Tokens that stand at arrays are indices, or the dash for the place behind the last item. */
  predicate ProperTokens(d: NValue, tokens: seq<Text>)
    decreases |tokens|
  {
    tokens == [] || (ProperToken(d, tokens[0])
                     && (NChild(d, tokens[0]).Some? ==> ProperTokens(NChild(d, tokens[0]).value, tokens[1..])))
  }

  predicate ProperToken(d: NValue, t: Text) {
    d.NArray? ==> IsIndex(t) || t == "-"
  }

  /** An edit with such tokens that does not remove the whole document, which the code does and leaves nothing. */
  predicate ProperEdit(d: NValue, e: Edit) {
    ProperTokens(d, e.tokens) && (e.tokens == [] ==> !e.change.Remove?)
  }

  /** Every edit that is reached is such a one. */
  predicate ProperEdits(d: NValue, edits: seq<Edit>)
    decreases |edits|
  {
    edits == [] || (
      var r := Changed(d, edits[0].tokens, edits[0].change);
      ProperEdit(d, edits[0]) && (r.Some? ==> ProperEdits(r.value, edits[1..])))
  }

  // ---------------------------------------------------------------------------------------------
  // Edits as patch documents
  // ---------------------------------------------------------------------------------------------

  /** A member of this name is a pointer with these tokens. */
  predicate Points(patch: Value, name: Text, tokens: seq<Text>, caseSensitive: bool) {
    match GetMember(patch, name, caseSensitive)
    case Some(Str(p)) => Tokens(p) == Some(tokens)
    case _ => false
  }

  /** Section 4 of RFC 6902: a document that asks for this edit, in whatever order and among whatever other members. */
  predicate Asks(patch: Value, e: Edit, caseSensitive: bool) {
    && Points(patch, "path", e.tokens, caseSensitive)
    && match e.change
       case Add(v) =>
         && GetMember(patch, "op", caseSensitive) == Some(Str("add"))
         && GetMember(patch, "value", caseSensitive) == Some(v)
       case Remove =>
         GetMember(patch, "op", caseSensitive) == Some(Str("remove"))
       case Replace(v) =>
         && GetMember(patch, "op", caseSensitive) == Some(Str("replace"))
         && GetMember(patch, "value", caseSensitive) == Some(v)
  }

  /** What `compose_patch` builds. */
  function PatchOf(path: Text, change: Change): Value {
    var ms := [Keyed("op", Str(OperationName(change))), Keyed("path", Str(path))];
    Object(if change.Remove? then ms else ms + [Keyed("value", change.value)])
  }

  function OperationName(change: Change): Text {
    match change case Add(_) => "add" case Remove => "remove" case Replace(_) => "replace"
  }

  /** The patch documents for edits of the subtree at `path`. */
  function Documents(path: Text, edits: seq<Edit>): seq<Value> {
    seq(|edits|, i requires 0 <= i < |edits| => PatchOf(path + Encode(edits[i].tokens), edits[i].change))
  }

  // ---------------------------------------------------------------------------------------------
  // Names that the code handles as the standard says
  // ---------------------------------------------------------------------------------------------

  /** Member names that differ in more than case and that survive escaping and decoding; the tokens for array places are
      among them. */
  ghost predicate Safe(keys: iset<Text>) {
    && Separates(keys, false)
    && (forall k :: k in keys ==> NulFree(k) && Recoverable(k))
    && (forall t :: IsIndex(t) ==> t in keys)
    && "-" in keys
  }

  ghost predicate SafeEdit(e: Edit, keys: iset<Text>) {
    (forall t :: t in e.tokens ==> t in keys) && (!e.change.Remove? ==> Fine(e.change.value, keys))
  }

  lemma SafeSeparates(keys: iset<Text>, caseSensitive: bool)
    requires Safe(keys)
    ensures Separates(keys, caseSensitive)
  {
    CaseSensitiveSeparates(keys);
  }

  lemma SafeToken(t: Text, keys: iset<Text>)
    requires Safe(keys) && t in keys
    ensures DecodeInPlace(Escape(t)) == t
  {
    DecodeUndoesEscape(t);
  }

  // ---------------------------------------------------------------------------------------------
  // One step along a path
  // ---------------------------------------------------------------------------------------------

  lemma {:induction false} FindMemberIsExact(ms: seq<Keyed<Value>>, k: nat, t: Text, rest: Text, keys: iset<Text>,
                                             caseSensitive: bool)
    requires Separates(keys, caseSensitive) && FineMembers(ms, keys) && t in keys && k <= |ms| && IsRest(rest)
    ensures match FindMember(ms, k, Escape(t) + rest, caseSensitive)
            case None => forall j :: k <= j < |ms| ==> ms[j].key != t
            case Some(j) => ms[j].key == t
    decreases |ms| - k
  {
    hide Escape, MatchesToken, Fine;
    if k < |ms| {
      EscapedTokenMatches(ms[k].key, t, rest, caseSensitive);
      FindMemberIsExact(ms, k + 1, t, rest, keys, caseSensitive);
    }
  }

  lemma {:induction false} FindKeyIsExact(ms: seq<Keyed<Value>>, k: nat, t: Text, keys: iset<Text>, caseSensitive: bool)
    requires Separates(keys, caseSensitive) && FineMembers(ms, keys) && t in keys && k <= |ms|
    ensures match FindKey(ms, k, t, caseSensitive)
            case None => forall j :: k <= j < |ms| ==> ms[j].key != t
            case Some(j) => ms[j].key == t
    decreases |ms| - k
  {
    hide Fine;
    if k < |ms| {
      FindKeyIsExact(ms, k + 1, t, keys, caseSensitive);
    }
  }

  /** A token that names a child in the normal form names the corresponding child in the document. */
  lemma StepRefines(v: Value, t: Text, rest: Text, keys: iset<Text>, caseSensitive: bool) returns (i: nat)
    requires Fine(v, keys) && Separates(keys, caseSensitive) && IsRest(rest) && NChild(Norm(v), t).Some?
    ensures i < Children(v) && Step(v, Escape(t) + rest, caseSensitive) == Some(i)
    ensures Fine(Child(v, i), keys) && Norm(Child(v, i)) == NChild(Norm(v), t).value
    ensures ChildIs(v, i, t)
  {
    match v {
      case Array(items) =>
        i := DigitsValue(t);
        IndexHasNoEscape(t);
        IndexIsDecoded(t, rest);
      case Object(ms) =>
        FineObject(ms, keys);
        hide Fine, FindMember, Escape;
        i := MemberRefines(ms, t, rest, keys, caseSensitive);
    }
  }

  /** A token that names none in the normal form leads nowhere in the document. */
  lemma StepFails(v: Value, t: Text, rest: Text, keys: iset<Text>, caseSensitive: bool)
    requires Fine(v, keys) && Separates(keys, caseSensitive) && IsRest(rest) && t in keys
    requires NChild(Norm(v), t).None? && ProperToken(Norm(v), t)
    ensures Step(v, Escape(t) + rest, caseSensitive).None?
  {
    match v {
      case Array(items) =>
        IndexOrDash(t, rest);
      case Object(ms) =>
        FineObject(ms, keys);
        hide Fine, FindMember, Escape;
        NormMembersKeys(ms);
        FindMemberIsExact(ms, 0, t, rest, keys, caseSensitive);
      case _ =>
    }
  }

  lemma IndexOrDash(t: Text, rest: Text)
    requires (IsIndex(t) || t == "-") && IsRest(rest)
    ensures DecodeIndex(Escape(t) + rest) == if IsIndex(t) then Some(DigitsValue(t)) else None
    ensures DecodeIndex(t) == if IsIndex(t) then Some(DigitsValue(t)) else None
  {
    if IsIndex(t) {
      IndexHasNoEscape(t);
      IndexIsDecoded(t, rest);
      IndexIsDecoded(t, []);
      assert t + [] == t;
    } else {
      EscapePlain(t);
    }
  }

  lemma MemberRefines(ms: seq<Keyed<Value>>, t: Text, rest: Text, keys: iset<Text>, caseSensitive: bool)
    returns (i: nat)
    requires FineMembers(ms, keys) && Separates(keys, caseSensitive) && IsRest(rest) && t in NormMembers(ms)
    ensures i < |ms| && ms[i].key == t && FindMember(ms, 0, Escape(t) + rest, caseSensitive) == Some(i)
    ensures Fine(ms[i].value, keys) && Norm(ms[i].value) == NormMembers(ms)[t]
  {
    hide Fine, Escape, Norm;
    NormMembersKeys(ms);
    i :| 0 <= i < |ms| && ms[i].key == t;
    FindMemberIsExact(ms, 0, t, rest, keys, caseSensitive);
    NormMembersAt(ms, i);
  }

  lemma IndexHasNoEscape(t: Text)
    requires IsIndex(t)
    ensures Escape(t) == t
  {
    EscapePlain(t);
  }

  /** Child number `i` is the one that `t` names. */
  predicate ChildIs(v: Value, i: nat, t: Text) {
    match v
    case Array(items) => i < |items| && IsIndex(t) && i == DigitsValue(t)
    case Object(ms) => i < |ms| && ms[i].key == t
    case _ => false
  }

  /** Replacing a child in the document is replacing it in the normal form. */
  lemma WithChildRefines(v: Value, i: nat, t: Text, w: Value, keys: iset<Text>)
    requires Fine(v, keys) && Fine(w, keys) && ChildIs(v, i, t)
    ensures NChild(Norm(v), t).Some?
    ensures Fine(WithChild(v, i, w), keys) && Norm(WithChild(v, i, w)) == NWithChild(Norm(v), t, Norm(w))
  {
    match v {
      case Array(items) =>
        assert NormItems(items[i := w]) == NormItems(items)[i := Norm(w)];
      case Object(ms) =>
        NormMembersAt(ms, i);
        NormMembersUpdate(ms, i, w);
        FineObject(ms, keys);
        FineObject(ms[i := Keyed(t, w)], keys);
    }
  }

  // ---------------------------------------------------------------------------------------------
  // Paths, split in front and at the last slash
  // ---------------------------------------------------------------------------------------------

  lemma {:induction false} LastSlashBehind(a: Text, q: Text)
    requires LastSlash(q).Some?
    ensures LastSlash(a + q) == Some(|a| + LastSlash(q).value)
    decreases |q|
  {
    assert (a + q)[..|a + q| - 1] == a + q[..|q| - 1];
    if q[|q| - 1] != '/' {
      LastSlashBehind(a, q[..|q| - 1]);
    }
  }

  lemma {:induction false} LastSlashOfToken(e: Text)
    requires '/' !in e
    ensures LastSlash("/" + e) == Some(0)
    decreases |e|
  {
    var p := "/" + e;
    if e != [] {
      assert p[|p| - 1] == e[|e| - 1] && e[|e| - 1] in e;
      assert p[..|p| - 1] == "/" + e[..|e| - 1];
      LastSlashOfToken(e[..|e| - 1]);
    }
  }

  lemma {:induction false} EncodeHasSlash(tokens: seq<Text>)
    requires tokens != []
    ensures LastSlash(Encode(tokens)).Some?
  {
    var q := Encode(tokens[1..]);
    var a := "/" + Escape(tokens[0]);
    if |tokens| == 1 {
      assert a + q == a;
      LastSlashOfToken(Escape(tokens[0]));
    } else {
      EncodeHasSlash(tokens[1..]);
      LastSlashBehind(a, q);
    }
  }

  /** The only token of a path is split off. */
  lemma SplitSingle(t: Text)
    ensures var p := Encode([t]); LastSlash(p) == Some(0) && p[..0] == [] && p[1..] == Escape(t)
  {
    assert Encode([t][1..]) == [];
    assert Encode([t]) == "/" + Escape(t);
    LastSlashOfToken(Escape(t));
  }

  lemma SplitFront(t: Text, q: Text)
    requires LastSlash(q).Some?
    ensures var p, k := "/" + Escape(t) + q, LastSlash(q).value;
            && LastSlash(p) == Some(1 + |Escape(t)| + k)
            && p[..1 + |Escape(t)| + k] == "/" + Escape(t) + q[..k]
            && p[1 + |Escape(t)| + k + 1..] == q[k + 1..]
  {
    hide Escape, LastSlash;
    LastSlashBehind("/" + Escape(t), q);
  }

  /** What happens below child `i` happens to that child. */
  lemma DetachFront(v: Value, i: nat, t: Text, q: Text, caseSensitive: bool)
    requires i < Children(v) && LastSlash(q).Some? && IsRest(q)
    requires Step(v, Escape(t) + q[..LastSlash(q).value], caseSensitive) == Some(i)
    ensures DetachPath(v, "/" + Escape(t) + q, caseSensitive)
         == match DetachPath(Child(v, i), q, caseSensitive)
            case None => None
            case Some(d) => Some(Detached(d.item, WithChild(v, i, d.document)))
  {
    hide Escape, LastSlash, Step, Locate, DetachChild, DecodeInPlace, WithChild;
    var k := LastSlash(q).value;
    SplitFront(t, q);
    LocateStep(v, i, Escape(t), q[..k], caseSensitive);
    var below := Locate(Child(v, i), q[..k], caseSensitive);
    if below.Some? {
      assert ([i] + below.value)[1..] == below.value;
    }
  }

  lemma AddFront(v: Value, i: nat, t: Text, q: Text, value: Value, caseSensitive: bool)
    requires i < Children(v) && LastSlash(q).Some? && IsRest(q)
    requires Step(v, Escape(t) + q[..LastSlash(q).value], caseSensitive) == Some(i)
    ensures AddPath(v, "/" + Escape(t) + q, value, caseSensitive).status
         == AddPath(Child(v, i), q, value, caseSensitive).status
    ensures var below := AddPath(Child(v, i), q, value, caseSensitive);
            below.status == 0 ==>
              AddPath(v, "/" + Escape(t) + q, value, caseSensitive) == Applied(0, WithChild(v, i, below.document))
  {
    hide Escape, LastSlash, Step, Locate, AddChild, DecodeInPlace, WithChild;
    var k := LastSlash(q).value;
    SplitFront(t, q);
    LocateStep(v, i, Escape(t), q[..k], caseSensitive);
    var below := Locate(Child(v, i), q[..k], caseSensitive);
    if below.Some? {
      assert ([i] + below.value)[1..] == below.value;
    }
  }

  /** Where the first step fails, removing and adding fail. */
  lemma FrontFails(v: Value, t: Text, q: Text, value: Value, caseSensitive: bool)
    requires LastSlash(q).Some? && IsRest(q)
    requires Step(v, Escape(t) + q[..LastSlash(q).value], caseSensitive).None?
    ensures DetachPath(v, "/" + Escape(t) + q, caseSensitive).None?
    ensures AddPath(v, "/" + Escape(t) + q, value, caseSensitive).status != 0
  {
    hide Escape, LastSlash, Step, DetachChild, AddChild, DecodeInPlace;
    var k := LastSlash(q).value;
    SplitFront(t, q);
    var p := "/" + Escape(t) + q[..k];
    assert p[1..] == Escape(t) + q[..k];
  }

  // ---------------------------------------------------------------------------------------------
  // Removing and adding refine the reference
  // ---------------------------------------------------------------------------------------------

  lemma DetachHere(v: Value, t: Text, keys: iset<Text>)
    requires Fine(v, keys) && Safe(keys) && t in keys && ChangeHere(Norm(v), t, Remove).Some?
    ensures DetachChild(v, t).Some?
    ensures NChild(Norm(v), t) == Some(Norm(DetachChild(v, t).value.item)) && Fine(DetachChild(v, t).value.item, keys)
    ensures Norm(DetachChild(v, t).value.document) == ChangeHere(Norm(v), t, Remove).value
    ensures Fine(DetachChild(v, t).value.document, keys)
  {
    match v {
      case Array(items) =>
        assert t + [] == t;
        IndexIsDecoded(t, []);
        var i := DigitsValue(t);
        assert NormItems(RemoveAt(items, i)) == RemoveAt(NormItems(items), i);
      case Object(ms) =>
        hide Norm, Proper, KeysIn;
        RemoveMember(ms, t, keys);
    }
  }

  lemma DetachHereFails(v: Value, t: Text, keys: iset<Text>)
    requires Fine(v, keys) && Safe(keys) && t in keys && ChangeHere(Norm(v), t, Remove).None? && ProperToken(Norm(v), t)
    ensures DetachChild(v, t).None?
  {
    match v {
      case Array(items) =>
        IndexOrDash(t, []);
      case Object(ms) =>
        FineObject(ms, keys);
        hide Fine, Recoverable;
        NormMembersKeys(ms);
        FindKeyIsExact(ms, 0, t, keys, false);
      case _ =>
    }
  }

  lemma AddHereFails(v: Value, t: Text, value: Value, caseSensitive: bool)
    requires ChangeHere(Norm(v), t, Add(value)).None? && ProperToken(Norm(v), t)
    ensures AddChild(v, t, value, caseSensitive).status != 0
  {
    if v.Array? {
      IndexOrDash(t, []);
    }
  }

  lemma RemoveMember(ms: seq<Keyed<Value>>, t: Text, keys: iset<Text>)
    requires Fine(Object(ms), keys) && Safe(keys) && t in keys && t in NormMembers(ms)
    ensures DetachChild(Object(ms), t).Some?
    ensures var d := DetachChild(Object(ms), t).value;
            && d.document.Object? && NormMembers(d.document.members) == NormMembers(ms) - {t}
            && NormMembers(ms)[t] == Norm(d.item) && Fine(d.item, keys)
            && Fine(d.document, keys)
  {
    hide Norm, Recoverable, SameKey, NormMembers;
    FineObject(ms, keys);
    NormMembersKeys(ms);
    FindKeyIsExact(ms, 0, t, keys, false);
    hide Fine;
    var i := FindKey(ms, 0, t, false).value;
    NormMembersAt(ms, i);
    NormMembersRemove(ms, i);
    FineMembersRemove(ms, i, keys);
    FineObject(RemoveAt(ms, i), keys);
  }

  lemma AddHere(v: Value, t: Text, value: Value, keys: iset<Text>, caseSensitive: bool)
    requires Fine(v, keys) && Fine(value, keys) && Safe(keys) && t in keys && ChangeHere(Norm(v), t, Add(value)).Some?
    ensures AddChild(v, t, value, caseSensitive).status == 0
    ensures Norm(AddChild(v, t, value, caseSensitive).document) == ChangeHere(Norm(v), t, Add(value)).value
    ensures Fine(AddChild(v, t, value, caseSensitive).document, keys)
  {
    match v {
      case Array(items) =>
        AddItem(items, t, value, keys, caseSensitive);
      case Object(ms) =>
        hide Norm, Proper, KeysIn;
        AddMember(ms, t, value, keys, caseSensitive);
    }
  }

  lemma AddItem(items: seq<Value>, t: Text, value: Value, keys: iset<Text>, caseSensitive: bool)
    requires Fine(Array(items), keys) && Fine(value, keys) && ChangeHere(NArray(NormItems(items)), t, Add(value)).Some?
    ensures var added := AddChild(Array(items), t, value, caseSensitive);
            && added.status == 0 && added.document.Array? && Fine(added.document, keys)
            && NArray(NormItems(added.document.items)) == ChangeHere(NArray(NormItems(items)), t, Add(value)).value
  {
    hide Norm, Fine, DecodeIndex, DigitsValue;
    FineArray(items, keys);
    if t == "-" {
      assert NormItems(items + [value]) == NormItems(items) + [Norm(value)];
      FineArray(items + [value], keys);
    } else {
      assert t + [] == t;
      IndexIsDecoded(t, []);
      var i := DigitsValue(t);
      assert NormItems(InsertAt(items, i, value)) == InsertAt(NormItems(items), i, Norm(value));
      FineArray(InsertAt(items, i, value), keys);
    }
  }

  lemma AddMember(ms: seq<Keyed<Value>>, t: Text, value: Value, keys: iset<Text>, caseSensitive: bool)
    requires Fine(Object(ms), keys) && Fine(value, keys) && Safe(keys) && t in keys
    ensures var added := AddChild(Object(ms), t, value, caseSensitive);
            && added.status == 0 && added.document.Object?
            && NormMembers(added.document.members) == NormMembers(ms)[t := Norm(value)]
            && Fine(added.document, keys)
  {
    hide Norm, Recoverable, SameKey, NormMembers;
    SafeSeparates(keys, caseSensitive);
    FineObject(ms, keys);
    FindKeyIsExact(ms, 0, t, keys, caseSensitive);
    hide Fine;
    var found := FindKey(ms, 0, t, caseSensitive);
    var rest := if found.None? then ms else RemoveAt(ms, found.value);
    if found.Some? {
      NormMembersRemove(ms, found.value);
      FineMembersRemove(ms, found.value, keys);
    }
    NormMembersAppend(rest, Keyed(t, value));
    FineMembersAppend(rest, Keyed(t, value), keys);
    FineObject(rest + [Keyed(t, value)], keys);
  }

  /** Removing by a pointer does what the standard says, and fails where the standard calls it an error. */
  lemma {:induction false} DetachRefines(v: Value, tokens: seq<Text>, keys: iset<Text>, caseSensitive: bool)
    requires Fine(v, keys) && Safe(keys) && (forall t :: t in tokens ==> t in keys)
    requires Changed(Norm(v), tokens, Remove).Some? || ProperTokens(Norm(v), tokens)
    ensures var d := DetachPath(v, Encode(tokens), caseSensitive);
            && (d.Some? <==> Changed(Norm(v), tokens, Remove).Some?)
            && (d.Some? ==>
                  && Norm(d.value.document) == Changed(Norm(v), tokens, Remove).value && Fine(d.value.document, keys)
                  && NGet(Norm(v), tokens) == Some(Norm(d.value.item)) && Fine(d.value.item, keys))
    decreases |tokens|
  {
    hide Norm, Fine, Safe, ChangeHere, DetachChild, NChild, NWithChild, Escape, LastSlash, WithChild, Step, DetachPath;
    hide DecodeInPlace, ChildIs, ProperToken;
    if tokens == [] {
      NoPathToRoot(v, Null, caseSensitive);
    } else if |tokens| == 1 {
      assert tokens == [tokens[0]];
      DetachSingle(v, tokens[0], keys, caseSensitive);
    } else {
      var t, q := tokens[0], Encode(tokens[1..]);
      EncodeHasSlash(tokens[1..]);
      SafeSeparates(keys, caseSensitive);
      PrefixIsRest(q, LastSlash(q).value);
      if NChild(Norm(v), t).None? {
        StepFails(v, t, q[..LastSlash(q).value], keys, caseSensitive);
        FrontFails(v, t, q, Null, caseSensitive);
      } else {
        var i := StepRefines(v, t, q[..LastSlash(q).value], keys, caseSensitive);
        DetachRefines(Child(v, i), tokens[1..], keys, caseSensitive);
        DetachFront(v, i, t, q, caseSensitive);
        var below := DetachPath(Child(v, i), q, caseSensitive);
        if below.Some? {
          WithChildRefines(v, i, t, below.value.document, keys);
        }
      }
    }
  }

  lemma NoPathToRoot(v: Value, value: Value, caseSensitive: bool)
    ensures DetachPath(v, Encode([]), caseSensitive).None? && AddPath(v, Encode([]), value, caseSensitive).status != 0
  {}

  lemma PrefixIsRest(q: Text, k: nat)
    requires IsRest(q) && k <= |q|
    ensures IsRest(q[..k])
  {}

  lemma DetachSingle(v: Value, t: Text, keys: iset<Text>, caseSensitive: bool)
    requires Fine(v, keys) && Safe(keys) && t in keys
    requires ChangeHere(Norm(v), t, Remove).Some? || ProperToken(Norm(v), t)
    ensures var d := DetachPath(v, Encode([t]), caseSensitive);
            && (d.Some? <==> ChangeHere(Norm(v), t, Remove).Some?)
            && (d.Some? ==>
                  && Norm(d.value.document) == ChangeHere(Norm(v), t, Remove).value && Fine(d.value.document, keys)
                  && NChild(Norm(v), t) == Some(Norm(d.value.item)) && Fine(d.value.item, keys))
  {
    hide Norm, Fine, Safe, ChangeHere, DetachChild, NChild, Escape, LastSlash, DecodeInPlace, Encode, ProperToken;
    SplitSingle(t);
    SafeToken(t, keys);
    if ChangeHere(Norm(v), t, Remove).Some? {
      DetachHere(v, t, keys);
    } else {
      DetachHereFails(v, t, keys);
    }
  }

  /** Adding by a pointer does what the standard says, and fails where the standard calls it an error. */
  lemma {:induction false} AddRefines(v: Value, tokens: seq<Text>, value: Value, keys: iset<Text>, caseSensitive: bool)
    requires Fine(v, keys) && Fine(value, keys) && Safe(keys) && tokens != [] && (forall t :: t in tokens ==> t in keys)
    requires Changed(Norm(v), tokens, Add(value)).Some? || ProperTokens(Norm(v), tokens)
    ensures var a := AddPath(v, Encode(tokens), value, caseSensitive);
            && (a.status == 0 <==> Changed(Norm(v), tokens, Add(value)).Some?)
            && (a.status == 0 ==>
                  Norm(a.document) == Changed(Norm(v), tokens, Add(value)).value && Fine(a.document, keys))
    decreases |tokens|
  {
    hide Norm, Fine, Safe, ChangeHere, AddChild, NChild, NWithChild, Escape, LastSlash, WithChild, Step, AddPath;
    hide DecodeInPlace, ChildIs, ProperToken;
    var t := tokens[0];
    if |tokens| == 1 {
      assert tokens == [t];
      AddSingle(v, t, value, keys, caseSensitive);
    } else {
      var q := Encode(tokens[1..]);
      EncodeHasSlash(tokens[1..]);
      SafeSeparates(keys, caseSensitive);
      PrefixIsRest(q, LastSlash(q).value);
      if NChild(Norm(v), t).None? {
        StepFails(v, t, q[..LastSlash(q).value], keys, caseSensitive);
        FrontFails(v, t, q, value, caseSensitive);
      } else {
        var i := StepRefines(v, t, q[..LastSlash(q).value], keys, caseSensitive);
        AddRefines(Child(v, i), tokens[1..], value, keys, caseSensitive);
        AddFront(v, i, t, q, value, caseSensitive);
        if AddPath(Child(v, i), q, value, caseSensitive).status == 0 {
          WithChildRefines(v, i, t, AddPath(Child(v, i), q, value, caseSensitive).document, keys);
        }
      }
    }
  }

  lemma AddSingle(v: Value, t: Text, value: Value, keys: iset<Text>, caseSensitive: bool)
    requires Fine(v, keys) && Fine(value, keys) && Safe(keys) && t in keys
    requires ChangeHere(Norm(v), t, Add(value)).Some? || ProperToken(Norm(v), t)
    ensures var a := AddPath(v, Encode([t]), value, caseSensitive);
            && (a.status == 0 <==> ChangeHere(Norm(v), t, Add(value)).Some?)
            && (a.status == 0 ==>
                  Norm(a.document) == ChangeHere(Norm(v), t, Add(value)).value && Fine(a.document, keys))
  {
    hide Norm, Fine, Safe, ChangeHere, AddChild, NChild, Escape, LastSlash, DecodeInPlace, Encode, ProperToken;
    SplitSingle(t);
    SafeToken(t, keys);
    if ChangeHere(Norm(v), t, Add(value)).Some? {
      AddHere(v, t, value, keys, caseSensitive);
    } else {
      AddHereFails(v, t, value, caseSensitive);
    }
  }

  lemma ChildOfWithChild(d: NValue, t: Text, c: NValue, c': NValue)
    requires NChild(d, t).Some?
    ensures NChild(NWithChild(d, t, c), t) == Some(c)
    ensures NWithChild(NWithChild(d, t, c), t, c') == NWithChild(d, t, c')
  {
    match d {
      case NArray(items) =>
        assert items[DigitsValue(t) := c][DigitsValue(t) := c'] == items[DigitsValue(t) := c'];
      case NObject(m) =>
        assert m[t := c][t := c'] == m[t := c'];
    }
  }

  /** Replacing is removing and then adding at the same place. */
  lemma {:induction false} ReplaceInTwoSteps(d: NValue, tokens: seq<Text>, value: Value)
    requires tokens != [] && Changed(d, tokens, Replace(value)).Some?
    ensures Changed(d, tokens, Remove).Some?
    ensures Changed(Changed(d, tokens, Remove).value, tokens, Add(value)) == Changed(d, tokens, Replace(value))
    decreases |tokens|
  {
    hide Norm;
    if |tokens| > 1 {
      hide NChild, NWithChild, ChangeHere;
      var c := NChild(d, tokens[0]).value;
      ReplaceInTwoSteps(c, tokens[1..], value);
      ChildOfWithChild(d, tokens[0], Changed(c, tokens[1..], Remove).value,
                       Changed(c, tokens[1..], Replace(value)).value);
    } else {
      match d {
        case NArray(items) =>
          var i := DigitsValue(tokens[0]);
          assert InsertAt(RemoveAt(items, i), i, Norm(value)) == items[i := Norm(value)];
        case NObject(m) =>
          assert (m - {tokens[0]})[tokens[0] := Norm(value)] == m[tokens[0] := Norm(value)];
      }
    }
  }

  /** How the fields of a generated patch are found again. */
  lemma PatchFields(path: Text, change: Change, caseSensitive: bool)
    ensures var p := PatchOf(path, change);
            && GetMember(p, "path", caseSensitive) == Some(Str(path))
            && GetMember(p, "op", caseSensitive) == Some(Str(OperationName(change)))
            && DecodeOperation(p, caseSensitive)
               == (match change case Add(_) => ADD case Remove => REMOVE case Replace(_) => REPLACE)
            && (!change.Remove? ==> GetMember(p, "value", caseSensitive) == Some(change.value))
  {
    var p := PatchOf(path, change);
    var ms := p.members;
    assert |Fold("op", caseSensitive)| == 2 && |Fold("path", caseSensitive)| == 4;
    assert |Fold("value", caseSensitive)| == 5;
    assert FindKey(ms, 0, "op", caseSensitive) == Some(0);
    assert FindKey(ms, 1, "path", caseSensitive) == Some(1) == FindKey(ms, 0, "path", caseSensitive);
    if !change.Remove? {
      assert FindKey(ms, 2, "value", caseSensitive) == Some(2) == FindKey(ms, 1, "value", caseSensitive);
    }
  }

  /** Generated patches ask for their edits. */
  lemma PatchAsks(e: Edit, caseSensitive: bool)
    ensures Asks(PatchOf(Encode(e.tokens), e.change), e, caseSensitive)
  {
    hide GetMember, PatchOf, Tokens, Encode;
    PatchFields(Encode(e.tokens), e.change, caseSensitive);
    TokensAreEncoded(Encode(e.tokens), e.tokens);
  }

  /** The same written out. */
  lemma WrittenEdit(p: Text, tokens: seq<Text>, value: Value, caseSensitive: bool)
    requires Tokens(p) == Some(tokens)
    ensures Asks(Object([Keyed("op", Str("add")), Keyed("path", Str(p)), Keyed("value", value)]),
                 Edit(tokens, Add(value)), caseSensitive)
    ensures Asks(Object([Keyed("op", Str("remove")), Keyed("path", Str(p))]), Edit(tokens, Remove), caseSensitive)
    ensures Asks(Object([Keyed("op", Str("replace")), Keyed("path", Str(p)), Keyed("value", value)]),
                 Edit(tokens, Replace(value)), caseSensitive)
  {
    hide GetMember, PatchOf, Tokens, Encode;
    TokensAreEncoded(p, tokens);
    PatchAsks(Edit(tokens, Add(value)), caseSensitive);
    PatchAsks(Edit(tokens, Remove), caseSensitive);
    PatchAsks(Edit(tokens, Replace(value)), caseSensitive);
    PatchWritten(p, value);
  }

  lemma PatchWritten(p: Text, value: Value)
    ensures PatchOf(p, Add(value)) == Object([Keyed("op", Str("add")), Keyed("path", Str(p)), Keyed("value", value)])
    ensures PatchOf(p, Remove) == Object([Keyed("op", Str("remove")), Keyed("path", Str(p))])
    ensures PatchOf(p, Replace(value))
         == Object([Keyed("op", Str("replace")), Keyed("path", Str(p)), Keyed("value", value)])
  {}

  /** There is something to replace exactly where there is something to remove. */
  lemma {:induction false} ReplaceableIsRemovable(d: NValue, tokens: seq<Text>, value: Value)
    requires tokens != []
    ensures Changed(d, tokens, Replace(value)).Some? <==> Changed(d, tokens, Remove).Some?
    decreases |tokens|
  {
    if |tokens| > 1 && NChild(d, tokens[0]).Some? {
      ReplaceableIsRemovable(NChild(d, tokens[0]).value, tokens[1..], value);
    }
  }

  /** A patch document for an edit does what section 4 of RFC 6902 says, and is refused where that calls it an error. */
  lemma ApplyRefines(v: Value, patch: Value, e: Edit, keys: iset<Text>, caseSensitive: bool)
    requires Fine(v, keys) && Safe(keys) && SafeEdit(e, keys) && Asks(patch, e, caseSensitive)
    requires Changed(Norm(v), e.tokens, e.change).Some? || ProperEdit(Norm(v), e)
    ensures var r := ApplyPatch(v, patch, caseSensitive);
            && (r.status == 0 <==> Changed(Norm(v), e.tokens, e.change).Some?)
            && (r.status == 0 ==>
                  Norm(r.document) == Changed(Norm(v), e.tokens, e.change).value && Fine(r.document, keys))
  {
    hide Norm, Fine, Safe, Asks, ApplyPatch, DetachPath, AddPath, ChangeHere, ProperTokens, Encode;
    AppliedEdit(v, patch, e, caseSensitive);
    if e.tokens != [] {
      match e.change {
        case Add(value) =>
          AddRefines(v, e.tokens, value, keys, caseSensitive);
        case Remove =>
          DetachRefines(v, e.tokens, keys, caseSensitive);
        case Replace(value) =>
          ReplaceableIsRemovable(Norm(v), e.tokens, value);
          DetachRefines(v, e.tokens, keys, caseSensitive);
          if Changed(Norm(v), e.tokens, Remove).Some? {
            ReplaceInTwoSteps(Norm(v), e.tokens, value);
            AddRefines(DetachPath(v, Encode(e.tokens), caseSensitive).value.document, e.tokens, value, keys,
                       caseSensitive);
          }
      }
    }
  }

  lemma AppliedEdit(v: Value, patch: Value, e: Edit, caseSensitive: bool)
    requires Asks(patch, e, caseSensitive)
    ensures var r, p := ApplyPatch(v, patch, caseSensitive), Encode(e.tokens);
            match e.change
            case Add(x) => r == if e.tokens == [] then Applied(0, x) else AddPath(v, p, x, caseSensitive)
            case Remove =>
              e.tokens != [] ==>
                (var d := DetachPath(v, p, caseSensitive);
                 r == if d.None? then Applied(13, v) else Applied(0, d.value.document))
            case Replace(x) =>
              if e.tokens == [] then r == Applied(0, x) else
              var d := DetachPath(v, p, caseSensitive);
              r == if d.None? then Applied(13, v) else AddPath(d.value.document, p, x, caseSensitive)
  {
    hide Asks, GetMember, DecodeOperation, DetachPath, AddPath, Encode;
    AskedOperation(patch, e, caseSensitive);
  }

  /** What the code reads from such a document. */
  lemma AskedOperation(patch: Value, e: Edit, caseSensitive: bool)
    requires Asks(patch, e, caseSensitive)
    ensures GetMember(patch, "path", caseSensitive) == Some(Str(Encode(e.tokens)))
    ensures DecodeOperation(patch, caseSensitive)
         == match e.change case Add(_) => ADD case Remove => REMOVE case Replace(_) => REPLACE
    ensures e.change.Remove? || GetMember(patch, "value", caseSensitive) == Some(e.change.value)
    ensures Encode(e.tokens) == [] <==> e.tokens == []
  {
    hide GetMember, Tokens;
    TokensAreEncoded(GetMember(patch, "path", caseSensitive).value.s, e.tokens);
  }

  /** So does a list of them, up to the first error. */
  lemma {:induction false} ApplyAllRefines(v: Value, edits: seq<Edit>, keys: iset<Text>, caseSensitive: bool)
    requires Fine(v, keys) && Safe(keys) && (forall e :: e in edits ==> SafeEdit(e, keys))
    requires ChangedAll(Norm(v), edits).Some? || ProperEdits(Norm(v), edits)
    ensures var r := ApplyAll(v, Documents([], edits), caseSensitive);
            && (r.status == 0 <==> ChangedAll(Norm(v), edits).Some?)
            && (r.status == 0 ==> Norm(r.document) == ChangedAll(Norm(v), edits).value && Fine(r.document, keys))
    decreases |edits|
  {
    hide Norm, Fine, Safe, SafeEdit, Asks, ApplyPatch, PatchOf, Changed, ProperEdit, Encode;
    if edits != [] {
      assert [] + Encode(edits[0].tokens) == Encode(edits[0].tokens);
      PatchAsks(edits[0], caseSensitive);
      ApplyRefines(v, PatchOf(Encode(edits[0].tokens), edits[0].change), edits[0], keys, caseSensitive);
      assert Documents([], edits)[1..] == Documents([], edits[1..]);
      var first := ApplyPatch(v, Documents([], edits)[0], caseSensitive);
      if first.status == 0 {
        ApplyAllRefines(first.document, edits[1..], keys, caseSensitive);
      }
    }
  }
}
