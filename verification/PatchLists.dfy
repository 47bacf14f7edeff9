/** Lists of patches with tests between them: a test sorts what it compares, and a later addition to an object that
    has been sorted can be lost. Also a move that the standard does not allow. */
module PatchLists {
  import opened Bytes
  import opened Json
  import opened JsonPointer
  import opened PointerDecode
  import opened PointerText
  import opened KeyedSort
  import opened ListTail
  import opened JsonNormal
  import opened JsonCompare
  import opened JsonPatch
  import opened PatchReference
  import opened PatchOperations
  import opened PatchDiff
  import opened DiffRoundTrip
  import opened LinkedTree
  import opened LinkedPatch

  // ---------------------------------------------------------------------------------------------
  // Changes deep inside a document
  // ---------------------------------------------------------------------------------------------

  lemma WithEqualChild(v: Value, i: nat, w: Value, keys: iset<Text>)
    requires i < Children(v) && Fine(v, keys) && Norm(w) == Norm(Child(v, i)) && Fine(w, keys)
    ensures Norm(WithChild(v, i, w)) == Norm(v) && Fine(WithChild(v, i, w), keys)
  {
    match v {
      case Array(items) =>
        assert NormItems(items[i := w]) == NormItems(items);
      case Object(ms) =>
        NormMembersAt(ms, i);
        NormMembersUpdate(ms, i, w);
        assert NormMembers(ms)[ms[i].key := Norm(w)] == NormMembers(ms);
        FineObject(ms, keys);
        FineObject(ms[i := Keyed(ms[i].key, w)], keys);
    }
  }

  lemma FineChild(v: Value, i: nat, keys: iset<Text>)
    requires i < Children(v) && Fine(v, keys)
    ensures Fine(Child(v, i), keys)
  {}

  lemma {:induction false} FineAt(v: Value, at: Path, keys: iset<Text>)
    requires ValidPath(v, at) && Fine(v, keys)
    ensures Fine(GetAt(v, at), keys)
    decreases |at|
  {
    hide Fine;
    if at != [] {
      FineChild(v, at[0], keys);
      FineAt(Child(v, at[0]), at[1..], keys);
    }
  }

  /** A node that stays the same up to member order leaves the document the same. */
  lemma {:induction false} SetStill(t: Tree, at: Path, w: Tree, keys: iset<Text>)
    requires ValidPath(Plain(t), at) && StillIs(GetTree(t, at), w, keys)
    ensures StillIs(t, SetTree(t, at, w), keys)
    decreases |at|
  {
    hide Fine, Norm;
    if at != [] {
      var c := TreeChild(t, at[0]);
      SetStill(c, at[1..], w, keys);
      if Fine(Plain(t), keys) {
        FineChild(Plain(t), at[0], keys);
        WithEqualChild(Plain(t), at[0], Plain(SetTree(c, at[1..], w)), keys);
      }
    }
  }

  lemma WithOtherChild(v: Value, i: nat, w: Value, x: Value)
    requires i < Children(v) && Proper(v) && Norm(w) != Norm(x)
    ensures Norm(WithChild(v, i, w)) != Norm(WithChild(v, i, x))
  {
    match v {
      case Array(items) =>
        assert NormItems(items[i := w])[i] != NormItems(items[i := x])[i];
      case Object(ms) =>
        NormMembersUpdate(ms, i, w);
        NormMembersUpdate(ms, i, x);
        assert NormMembers(ms)[ms[i].key := Norm(w)][ms[i].key] != NormMembers(ms)[ms[i].key := Norm(x)][ms[i].key];
    }
  }

  /** Different nodes at the same place make different documents. */
  lemma {:induction false} SetOther(v: Value, at: Path, w: Value, x: Value)
    requires ValidPath(v, at) && Proper(v) && Norm(w) != Norm(x)
    ensures Norm(SetAt(v, at, w)) != Norm(SetAt(v, at, x))
    decreases |at|
  {
    hide Norm;
    if at != [] {
      SetOther(Child(v, at[0]), at[1..], w, x);
      WithOtherChild(v, at[0], SetAt(Child(v, at[0]), at[1..], w), SetAt(Child(v, at[0]), at[1..], x));
    }
  }

  // ---------------------------------------------------------------------------------------------
  // Tests
  // ---------------------------------------------------------------------------------------------

  /** A test never changes a document but for the order of members. */
  lemma TestedKeeps(doc: Tree, patch: Value, path: Text, keys: iset<Text>, caseSensitive: bool)
    ensures var stage := Tested(doc, patch, path, caseSensitive);
            && stage.Done? && StillIs(doc, stage.document, keys)
            && stage.status == if TestAt(Plain(doc), patch, path, caseSensitive) then 0 else 1
  {
    hide Compared, Same, StillIs, GetMember, Locate;
    NothingChanged(doc, keys);
    var at, value := Locate(Plain(doc), path, caseSensitive), GetMember(patch, "value", caseSensitive);
    if at.Some? && value.Some? {
      ComparedIsSame(GetTree(doc, at.value), Fresh(value.value), caseSensitive);
      ComparedKeeps(GetTree(doc, at.value), Fresh(value.value), keys, caseSensitive);
      SetStill(doc, at.value, Compared(GetTree(doc, at.value), Fresh(value.value), caseSensitive).a, keys);
    }
  }

  /** What a test leaves of the links of the object it compares with another one: they are still right exactly if the
      first and the last member have stayed in their places. */
  lemma TestedTail(ms: seq<Keyed<Tree>>, tail: Tail, b: Tree, caseSensitive: bool)
    requires b.Group? && Right(tail, |ms|)
    ensures var r, places := Compared(Group(ms, tail), b, caseSensitive).a, Order(Keys(ms), caseSensitive);
            && r.Group? && |r.members| == |ms| == |places|
            && (Right(r.tail, |ms|) <==> ms == [] || (places[0] == 0 && places[|ms| - 1] == |ms| - 1))
  {
    hide Sort, Order;
    ArrangedInside(ms, tail, caseSensitive);
    SortIsOrder(ms, caseSensitive);
    AfterSortIsRight(tail, Order(Keys(ms), caseSensitive));
  }

  // ---------------------------------------------------------------------------------------------
  // What is lost is missed
  // ---------------------------------------------------------------------------------------------

  lemma {:induction false} CountOfMembers(ms: seq<Keyed<Value>>)
    ensures |NormMembers(ms)| <= |ms|
    ensures DistinctKeys(ms) ==> |NormMembers(ms)| == |ms|
  {
    hide Norm;
    if ms != [] {
      CountOfMembers(ms[1..]);
      NormMembersKeys(ms[1..]);
      var m, k := NormMembers(ms[1..]), ms[0].key;
      assert NormMembers(ms).Keys == m.Keys + {k};
      assert |m.Keys| == |m| && |NormMembers(ms).Keys| == |NormMembers(ms)|;
      if DistinctKeys(ms) {
        assert k !in m;
      }
    }
  }

  /** Behind an object without the member of this name there is room for it. */
  lemma ClearedHasRoom(ms: seq<Keyed<Tree>>, tail: Tail, child: Text, keys: iset<Text>, caseSensitive: bool)
    requires Fine(Plain(Group(ms, tail)), keys) && Separates(keys, caseSensitive) && child in keys
    ensures var rest := Cleared(ms, tail, child, caseSensitive).0;
            forall v :: DistinctKeys(PlainMembers(rest) + [Keyed(child, v)])
  {
    hide SameKey, Plain;
    var pm := PlainMembers(ms);
    assert Plain(Group(ms, tail)) == Object(pm) by { PlainOfGroup(ms, tail); }
    FineObject(pm, keys);
    FindKeyIsExact(pm, 0, child, keys, caseSensitive);
    SameKeyFound(ms, 0, child, caseSensitive);
    hide Fine, FindKey;
    var i := FindKey(ms, 0, child, caseSensitive);
    if i.Some? {
      PlainRemoved(ms, i.value);
      FineMembersRemove(pm, i.value, keys);
    }
  }

  lemma PlainOfGroup(ms: seq<Keyed<Tree>>, tail: Tail)
    ensures Plain(Group(ms, tail)) == Object(PlainMembers(ms))
  {}

  lemma FewerMembersDiffer(a: seq<Keyed<Value>>, b: seq<Keyed<Value>>)
    requires DistinctKeys(b) && |a| < |b|
    ensures Norm(Object(a)) != Norm(Object(b))
  {
    CountOfMembers(a);
    CountOfMembers(b);
  }

  /** Appending elsewhere than behind the last member leaves fewer members than there should be. */
  lemma AppendLoses(ms: seq<Keyed<Tree>>, tail: Tail, m: Keyed<Tree>)
    requires !Right(tail, |ms|) && DistinctKeys(PlainMembers(ms) + [Keyed(m.key, Plain(m.value))])
    ensures var e := Append(ms, tail, m);
            e.Effect? ==>
              && e.status == 0
              && Norm(Plain(e.document)) != Norm(Object(PlainMembers(ms) + [Keyed(m.key, Plain(m.value))]))
  {
    hide Norm, Append, Plain, DistinctKeys;
    AppendIsAppend(ms, tail, m);
    var e := Append(ms, tail, m);
    if e.Effect? {
      PlainOfGroup(e.document.members, e.document.tail);
      FewerMembersDiffer(PlainMembers(e.document.members), PlainMembers(ms) + [Keyed(m.key, Plain(m.value))]);
    }
  }

  lemma LinkChildLoses(parent: Tree, child: Text, value: Tree, keys: iset<Text>, caseSensitive: bool)
    requires parent.Group? && Fine(Plain(parent), keys) && Separates(keys, caseSensitive) && child in keys
    requires var (rest, tail) := Cleared(parent.members, parent.tail, child, caseSensitive); !Right(tail, |rest|)
    ensures var e, a := LinkChild(parent, child, value, caseSensitive),
                        AddChild(Plain(parent), child, Plain(value), caseSensitive);
            a.status == 0 && (e.Effect? ==> e.status == 0 && Norm(Plain(e.document)) != Norm(a.document))
  {
    hide Norm, Append, Right, SameKey;
    var ms := parent.members;
    ClearedHasRoom(ms, parent.tail, child, keys, caseSensitive);
    var (rest, tail) := Cleared(ms, parent.tail, child, caseSensitive);
    AppendLoses(rest, tail, Keyed(child, value));
    SameKeyFound(ms, 0, child, caseSensitive);
    hide FindKey;
    var i := FindKey(ms, 0, child, caseSensitive);
    if i.Some? {
      PlainRemoved(ms, i.value);
    }
  }

  ghost predicate NamesIn(path: Text, keys: iset<Text>) {
    LastSlash(path).Some? ==> DecodeInPlace(path[LastSlash(path).value + 1..]) in keys
  }

  /** An addition that is not linked behind the last member returns 0 and leaves another document than it should, if
      it does not follow a stray pointer. */
  lemma LinkLoses(doc: Tree, path: Text, value: Tree, keys: iset<Text>, caseSensitive: bool)
    requires Fine(Plain(doc), keys) && Separates(keys, caseSensitive) && NamesIn(path, keys)
    requires !Links(doc, path, caseSensitive)
    ensures var e, a := LinkPath(doc, path, value, caseSensitive),
                        AddPath(Plain(doc), path, Plain(value), caseSensitive);
            a.status == 0 && (e.Effect? ==> e.status == 0 && Norm(Plain(e.document)) != Norm(a.document))
  {
    var k := LastSlash(path).value;
    hide DecodeInPlace, LastSlash, Locate, AddChild, LinkChild, Cleared, Norm, Fine, Separates;
    var at := Locate(Plain(doc), path[..k], caseSensitive).value;
    var parent, child := GetTree(doc, at), DecodeInPlace(path[k + 1..]);
    FineAt(Plain(doc), at, keys);
    LinkChildLoses(parent, child, value, keys, caseSensitive);
    var e := LinkChild(parent, child, value, caseSensitive);
    var a := AddChild(Plain(parent), child, Plain(value), caseSensitive);
    if e.Effect? {
      FineIsProper(Plain(doc), keys);
      SetOther(Plain(doc), at, Plain(e.document), a.document);
    }
  }

  lemma FineIsProper(v: Value, keys: iset<Text>)
    requires Fine(v, keys)
    ensures Proper(v)
  {}

  // ---------------------------------------------------------------------------------------------
  // Lists of edits and tests
  // ---------------------------------------------------------------------------------------------

  datatype Request = Alter(edit: Edit) | Check(tokens: seq<Text>, value: Value)

  /** As a patch document. */
  function RequestDocument(r: Request): Value {
    match r
    case Alter(e) => PatchOf(Encode(e.tokens), e.change)
    case Check(tokens, value) =>
      Object([Keyed("op", Str("test")), Keyed("path", Str(Encode(tokens))), Keyed("value", value)])
  }

  /** The same written out. */
  lemma WrittenRequests(p: Text, tokens: seq<Text>, value: Value)
    requires Tokens(p) == Some(tokens)
    ensures RequestDocument(Alter(Edit(tokens, Add(value))))
         == Object([Keyed("op", Str("add")), Keyed("path", Str(p)), Keyed("value", value)])
    ensures RequestDocument(Alter(Edit(tokens, Remove))) == Object([Keyed("op", Str("remove")), Keyed("path", Str(p))])
    ensures RequestDocument(Alter(Edit(tokens, Replace(value))))
         == Object([Keyed("op", Str("replace")), Keyed("path", Str(p)), Keyed("value", value)])
    ensures RequestDocument(Check(tokens, value))
         == Object([Keyed("op", Str("test")), Keyed("path", Str(p)), Keyed("value", value)])
  {
    hide Tokens, Encode;
    TokensAreEncoded(p, tokens);
  }

  /** Without a path, or without one of the six operations, nothing at all is done to a document, sorting included. */
  lemma MalformedLeaves(doc: Tree, patch: Value, caseSensitive: bool)
    ensures !HasPath(patch, caseSensitive) ==> ApplyTree(doc, patch, caseSensitive) == Effect(2, doc)
    ensures HasPath(patch, caseSensitive) && !KnownOperation(patch, caseSensitive) ==>
              ApplyTree(doc, patch, caseSensitive) == Effect(3, doc)
  {
    hide GetMember, LinkPath;
  }

  function RequestDocuments(rs: seq<Request>): (patches: seq<Value>)
    ensures |patches| == |rs|
  {
    seq(|rs|, i requires 0 <= i < |rs| => RequestDocument(rs[i]))
  }

  /** What section 4 of RFC 6902 makes of it; none if it is an error or the test fails. */
  function Asked(d: NValue, r: Request): Option<NValue> {
    match r
    case Alter(e) => Changed(d, e.tokens, e.change)
    case Check(tokens, value) => if NGet(d, tokens) == Some(Norm(value)) then Some(d) else None
  }

  function AskedAll(d: NValue, rs: seq<Request>): Option<NValue>
    decreases |rs|
  {
    if rs == [] then Some(d) else
    match Asked(d, rs[0])
    case None => None
    case Some(r) => AskedAll(r, rs[1..])
  }

  ghost predicate SafeRequest(r: Request, keys: iset<Text>) {
    match r
    case Alter(e) => SafeEdit(e, keys)
    case Check(tokens, value) => (forall t :: t in tokens ==> t in keys) && Fine(value, keys)
  }

  predicate ProperRequest(d: NValue, r: Request) {
    match r
    case Alter(e) => ProperEdit(d, e)
    case Check(tokens, _) => ProperTokens(d, tokens)
  }

  predicate ProperRequests(d: NValue, rs: seq<Request>)
    decreases |rs|
  {
    rs == [] || (ProperRequest(d, rs[0]) && (Asked(d, rs[0]).Some? ==> ProperRequests(Asked(d, rs[0]).value, rs[1..])))
  }

  /** The effect is the one asked for. */
  predicate DoesAsAsked(e: Effect, asked: Option<NValue>) {
    && e.Effect? && (e.status == 0 <==> asked.Some?)
    && (e.status == 0 ==> Norm(Plain(e.document)) == asked.value)
  }

  lemma CheckFields(tokens: seq<Text>, value: Value, caseSensitive: bool)
    ensures var p := RequestDocument(Check(tokens, value));
            && GetMember(p, "path", caseSensitive) == Some(Str(Encode(tokens)))
            && DecodeOperation(p, caseSensitive) == TEST
            && GetMember(p, "value", caseSensitive) == Some(value)
  {
    hide Encode;
    var ms := RequestDocument(Check(tokens, value)).members;
    assert |Fold("op", caseSensitive)| == 2 && |Fold("path", caseSensitive)| == 4;
    assert |Fold("value", caseSensitive)| == 5;
    assert FindKey(ms, 0, "op", caseSensitive) == Some(0);
    assert FindKey(ms, 1, "path", caseSensitive) == Some(1) == FindKey(ms, 0, "path", caseSensitive);
    assert FindKey(ms, 2, "value", caseSensitive) == Some(2) == FindKey(ms, 1, "value", caseSensitive);
  }

  /** A test does what is asked, whatever the links are. */
  lemma CheckIsAsked(doc: Tree, tokens: seq<Text>, value: Value, keys: iset<Text>, caseSensitive: bool)
    requires Fine(Plain(doc), keys) && Fine(value, keys) && Separates(keys, caseSensitive)
    requires ProperTokens(Norm(Plain(doc)), tokens) && forall t :: t in tokens ==> t in keys
    ensures var r, e := Check(tokens, value), ApplyTree(doc, RequestDocument(Check(tokens, value)), caseSensitive);
            && DoesAsAsked(e, Asked(Norm(Plain(doc)), r)) && Fine(Plain(e.document), keys)
            && Keeps(doc, RequestDocument(r), caseSensitive)
  {
    hide Norm, Fine, Separates, GetMember, DecodeOperation, Tested, TestAt, ProperTokens, NGet, Encode;
    var p := RequestDocument(Check(tokens, value));
    CheckFields(tokens, value, caseSensitive);
    hide RequestDocument;
    TestAtIsEquality(Plain(doc), p, tokens, value, keys, caseSensitive);
    TestedKeeps(doc, p, Encode(tokens), keys, caseSensitive);
  }

  lemma {:induction false} LastTokenDecoded(tokens: seq<Text>, keys: iset<Text>)
    requires tokens != [] && Safe(keys) && forall t :: t in tokens ==> t in keys
    ensures NamesIn(Encode(tokens), keys)
    decreases |tokens|
  {
    hide Escape, LastSlash, DecodeInPlace, Safe;
    var t := tokens[0];
    if |tokens| == 1 {
      assert tokens == [t];
      SplitSingle(t);
      SafeToken(t, keys);
    } else {
      var q := Encode(tokens[1..]);
      EncodeHasSlash(tokens[1..]);
      SplitFront(t, q);
      LastTokenDecoded(tokens[1..], keys);
      assert Encode(tokens) == "/" + Escape(t) + q;
    }
  }

  lemma FieldsOfEdit(e: Edit, caseSensitive: bool)
    ensures var p := RequestDocument(Alter(e));
            && GetMember(p, "path", caseSensitive) == Some(Str(Encode(e.tokens)))
            && DecodeOperation(p, caseSensitive)
               == (match e.change case Add(_) => ADD case Remove => REMOVE case Replace(_) => REPLACE)
            && (Encode(e.tokens) == [] <==> e.tokens == [])
  {
    hide GetMember, DecodeOperation, PatchOf;
    PatchFields(Encode(e.tokens), e.change, caseSensitive);
  }

  /** What an edit comes to add is added at its own path, to a document that is still proper. */
  lemma PreparedEdit(doc: Tree, e: Edit, keys: iset<Text>, caseSensitive: bool)
    requires Fine(Plain(doc), keys) && Safe(keys) && SafeEdit(e, keys) && ProperEdit(Norm(Plain(doc)), e)
    ensures var stage := Prepared(doc, RequestDocument(Alter(e)), caseSensitive);
            stage.Adding? ==> stage.path == Encode(e.tokens) && e.tokens != [] && Fine(Plain(stage.document), keys)
  {
    hide Norm, Fine, Safe, GetMember, DecodeOperation, TakePath, DetachPath, Encode, Changed, ProperTokens, Plain;
    FieldsOfEdit(e, caseSensitive);
    hide RequestDocument;
    if e.tokens != [] {
      TakeIsDetach(doc, Encode(e.tokens), caseSensitive);
      DetachRefines(Plain(doc), e.tokens, keys, caseSensitive);
    }
  }

  /** An edit does what is asked exactly if what it adds is linked behind the last member. */
  lemma AlterIsAsked(doc: Tree, e: Edit, keys: iset<Text>, caseSensitive: bool)
    requires Fine(Plain(doc), keys) && Safe(keys) && SafeEdit(e, keys) && ProperEdit(Norm(Plain(doc)), e)
    ensures var p, asked := RequestDocument(Alter(e)), Asked(Norm(Plain(doc)), Alter(e));
            var r := ApplyTree(doc, p, caseSensitive);
            && (DoesAsAsked(r, asked) <==> Keeps(doc, p, caseSensitive))
            && (DoesAsAsked(r, asked) && r.status == 0 ==> Fine(Plain(r.document), keys))
  {
    hide Norm, Fine, Safe, DecodeOperation, GetMember, Prepared, ApplyPatch, LinkPath, AddPath, Links, Encode, Changed;
    hide ProperEdit, SafeEdit, Plain;
    var p := RequestDocument(Alter(e));
    FieldsOfEdit(e, caseSensitive);
    AppliesExactly(doc, p, caseSensitive);
    PatchAsks(e, caseSensitive);
    ApplyRefines(Plain(doc), p, e, keys, caseSensitive);
    if !Keeps(doc, p, caseSensitive) {
      var stage := Prepared(doc, p, caseSensitive);
      PreparedEdit(doc, e, keys, caseSensitive);
      PreparedIsApply(doc, p, caseSensitive);
      SafeSeparates(keys, caseSensitive);
      NamesOfEdit(e, keys);
      LinkLoses(stage.document, stage.path, stage.item, keys, caseSensitive);
    }
  }

  lemma NamesOfEdit(e: Edit, keys: iset<Text>)
    requires e.tokens != [] && Safe(keys) && SafeEdit(e, keys)
    ensures NamesIn(Encode(e.tokens), keys)
  {
    hide Safe, Encode, Fine;
    LastTokenDecoded(e.tokens, keys);
  }

  // A whole list does what is asked of it step by step exactly if every step keeps what it adds.

  predicate Follows(doc: Tree, rs: seq<Request>, caseSensitive: bool)
    decreases |rs|
  {
    rs == [] || (
      var e := ApplyTree(doc, RequestDocument(rs[0]), caseSensitive);
      DoesAsAsked(e, Asked(Norm(Plain(doc)), rs[0])) && (e.status == 0 ==> Follows(e.document, rs[1..], caseSensitive)))
  }

  predicate KeepsAll(doc: Tree, rs: seq<Request>, caseSensitive: bool)
    decreases |rs|
  {
    rs == [] || (
      var e := ApplyTree(doc, RequestDocument(rs[0]), caseSensitive);
      && Keeps(doc, RequestDocument(rs[0]), caseSensitive)
      && (e.Effect? && e.status == 0 ==> KeepsAll(e.document, rs[1..], caseSensitive)))
  }

  lemma RequestIsAsked(doc: Tree, r: Request, keys: iset<Text>, caseSensitive: bool)
    requires Fine(Plain(doc), keys) && Safe(keys) && SafeRequest(r, keys) && ProperRequest(Norm(Plain(doc)), r)
    ensures var p, asked := RequestDocument(r), Asked(Norm(Plain(doc)), r);
            var e := ApplyTree(doc, p, caseSensitive);
            && (DoesAsAsked(e, asked) <==> Keeps(doc, p, caseSensitive))
            && (DoesAsAsked(e, asked) && e.status == 0 ==> Fine(Plain(e.document), keys))
  {
    hide Norm, Fine, Safe, SafeEdit, ProperEdit, ApplyTree, Keeps, DoesAsAsked, RequestDocument, Asked, ProperTokens;
    match r {
      case Alter(e) =>
        AlterIsAsked(doc, e, keys, caseSensitive);
      case Check(tokens, value) =>
        SafeSeparates(keys, caseSensitive);
        CheckIsAsked(doc, tokens, value, keys, caseSensitive);
    }
  }

  /** Every edit and every test of a list does what section 4 of RFC 6902 says exactly if every addition that is
      reached is linked behind the last member of its object. */
  lemma {:induction false} FollowsExactly(doc: Tree, rs: seq<Request>, keys: iset<Text>, caseSensitive: bool)
    requires Fine(Plain(doc), keys) && Safe(keys) && (forall r :: r in rs ==> SafeRequest(r, keys))
    requires ProperRequests(Norm(Plain(doc)), rs)
    ensures Follows(doc, rs, caseSensitive) <==> KeepsAll(doc, rs, caseSensitive)
    decreases |rs|
  {
    hide Norm, Fine, Safe, SafeRequest, ProperRequest, ApplyTree, Keeps, RequestDocument, Asked, Plain;
    if rs != [] {
      RequestIsAsked(doc, rs[0], keys, caseSensitive);
      var e := ApplyTree(doc, RequestDocument(rs[0]), caseSensitive);
      if DoesAsAsked(e, Asked(Norm(Plain(doc)), rs[0])) && e.status == 0 {
        FollowsExactly(e.document, rs[1..], keys, caseSensitive);
      }
    }
  }

  /** A list that follows the standard step by step returns 0 exactly if the standard accepts it, and leaves what the
      standard says. */
  lemma {:induction false} FollowedIsAsked(doc: Tree, rs: seq<Request>, caseSensitive: bool)
    requires Follows(doc, rs, caseSensitive)
    ensures DoesAsAsked(ApplyTreeAll(doc, RequestDocuments(rs), caseSensitive), AskedAll(Norm(Plain(doc)), rs))
    decreases |rs|
  {
    hide Norm, ApplyTree, RequestDocument, Asked, Plain;
    var ps := RequestDocuments(rs);
    if rs != [] {
      assert ps[0] == RequestDocument(rs[0]) && ps[1..] == RequestDocuments(rs[1..]);
      var e := ApplyTree(doc, ps[0], caseSensitive);
      if e.status == 0 {
        FollowedIsAsked(e.document, rs[1..], caseSensitive);
      }
    }
  }

  /** Without a test, a document whose links are right keeps everything. */
  lemma {:induction false} EditsKeepAll(doc: Tree, rs: seq<Request>, caseSensitive: bool)
    requires Sound(doc) && forall r :: r in rs ==> r.Alter?
    ensures KeepsAll(doc, rs, caseSensitive)
    decreases |rs|
  {
    hide ApplyTree, ApplyPatch, RequestDocument, DecodeOperation, Sound, Keeps;
    if rs != [] {
      var p := RequestDocument(rs[0]);
      FieldsOfEdit(rs[0].edit, caseSensitive);
      SoundStays(doc, p, caseSensitive);
      AppliesExactly(doc, p, caseSensitive);
      var e := ApplyTree(doc, p, caseSensitive);
      EditsKeepAll(e.document, rs[1..], caseSensitive);
    }
  }

  // ---------------------------------------------------------------------------------------------
  // Lists whose tests do no harm
  // ---------------------------------------------------------------------------------------------

  predicate Adds(r: Request) {
    r.Alter? && !r.edit.change.Remove?
  }

  /** Test number `i` compares with a value in which no object has two members; or nothing has been edited before it,
      and all objects in the node that it names have their members in order. */
  predicate Harmless(v: Value, rs: seq<Request>, i: nat, caseSensitive: bool)
    requires i < |rs| && rs[i].Check?
  {
    Narrow(rs[i].value) || (
      && (forall k :: 0 <= k < i ==> rs[k].Check?)
      && var at := Locate(v, Encode(rs[i].tokens), caseSensitive); at.Some? ==>
           Ordered(GetAt(v, at.value), caseSensitive))
  }

  /** Every test that an addition follows is like that. */
  predicate TestsAreHarmless(v: Value, rs: seq<Request>, caseSensitive: bool) {
    forall i, j :: 0 <= i < j < |rs| && rs[i].Check? && Adds(rs[j]) ==> Harmless(v, rs, i, caseSensitive)
  }

  lemma CheckUnfolds(doc: Tree, tokens: seq<Text>, value: Value, caseSensitive: bool)
    ensures var p, at := RequestDocument(Check(tokens, value)), Locate(Plain(doc), Encode(tokens), caseSensitive);
            var e := ApplyTree(doc, p, caseSensitive);
            && Keeps(doc, p, caseSensitive)
            && if at.None? then e == Effect(1, doc)
               else
                 var r := Compared(GetTree(doc, at.value), Fresh(value), caseSensitive);
                 e == Effect(if r.same then 0 else 1, SetTree(doc, at.value, r.a))
  {
    hide GetMember, DecodeOperation, Encode, Locate, Compared, Plain, Fresh;
    CheckFields(tokens, value, caseSensitive);
    hide RequestDocument;
  }

  /** A test that passes and is of this kind leaves the document as it is, and its links right. */
  lemma HarmlessStays(doc: Tree, tokens: seq<Text>, value: Value, caseSensitive: bool)
    requires Sound(doc)
    requires Narrow(value) || (
               var at := Locate(Plain(doc), Encode(tokens), caseSensitive);
               at.Some? ==> Ordered(GetAt(Plain(doc), at.value), caseSensitive))
    ensures var e := ApplyTree(doc, RequestDocument(Check(tokens, value)), caseSensitive);
            e.Effect? && (e.status == 0 ==> StaysSound(doc, e.document))
  {
    hide ApplyTree, RequestDocument, Keeps, Encode, Locate, Compared, Plain, Ordered, Narrow, Sound, Fresh;
    CheckUnfolds(doc, tokens, value, caseSensitive);
    var at := Locate(Plain(doc), Encode(tokens), caseSensitive);
    if at.Some? {
      var t := GetTree(doc, at.value);
      var r := Compared(t, Fresh(value), caseSensitive);
      if r.same {
        SoundBelow(doc, at.value, t);
        if Narrow(value) {
          SameAsNarrow(t, Fresh(value), caseSensitive);
        }
        SettledStays(t, Fresh(value), caseSensitive);
        SoundBelow(doc, at.value, r.a);
        SetToItself(Plain(doc), at.value);
      }
    }
  }

  lemma {:induction false} SetToItself(v: Value, at: Path)
    requires ValidPath(v, at)
    ensures SetAt(v, at, GetAt(v, at)) == v
    decreases |at|
  {
    if at != [] {
      SetToItself(Child(v, at[0]), at[1..]);
      ChildToItself(v, at[0]);
    }
  }

  lemma ChildToItself(v: Value, i: nat)
    requires i < Children(v)
    ensures WithChild(v, i, Child(v, i)) == v
  {
    match v {
      case Array(items) => assert items[i := items[i]] == items;
      case Object(ms) => assert ms[i := Keyed(ms[i].key, ms[i].value)] == ms;
    }
  }

  lemma StepWithoutAddition(doc: Tree, r: Request, caseSensitive: bool)
    requires !Adds(r)
    ensures Keeps(doc, RequestDocument(r), caseSensitive)
  {
    hide GetMember, DecodeOperation, Encode, TakePath, PatchOf, Tested;
    match r {
      case Alter(e) =>
        FieldsOfEdit(e, caseSensitive);
      case Check(tokens, value) =>
        CheckUnfolds(doc, tokens, value, caseSensitive);
    }
  }

  lemma {:induction false} NothingAdded(doc: Tree, rs: seq<Request>, caseSensitive: bool)
    requires forall r :: r in rs ==> !Adds(r)
    ensures KeepsAll(doc, rs, caseSensitive)
    decreases |rs|
  {
    hide ApplyTree, RequestDocument, Keeps, Adds;
    if rs != [] {
      StepWithoutAddition(doc, rs[0], caseSensitive);
      var e := ApplyTree(doc, RequestDocument(rs[0]), caseSensitive);
      if e.Effect? {
        NothingAdded(e.document, rs[1..], caseSensitive);
      }
    }
  }

  lemma HarmlessRest(v: Value, w: Value, rs: seq<Request>, caseSensitive: bool)
    requires rs != [] && TestsAreHarmless(v, rs, caseSensitive) && (rs[0].Check? ==> w == v)
    ensures TestsAreHarmless(w, rs[1..], caseSensitive)
  {
    hide Narrow, Ordered, Locate, Encode, Adds;
    var rest := rs[1..];
    forall i, j | 0 <= i < j < |rest| && rest[i].Check? && Adds(rest[j]) ensures Harmless(w, rest, i, caseSensitive) {
      assert rs[i + 1] == rest[i] && rs[j + 1] == rest[j] && Harmless(v, rs, i + 1, caseSensitive);
      assert forall k :: 0 <= k < i ==> rest[k] == rs[k + 1];
    }
  }

  lemma CheckAddsNothing(tokens: seq<Text>, value: Value)
    ensures !Adds(Check(tokens, value))
  {}

  lemma FirstIsHarmless(v: Value, rs: seq<Request>, j: nat, caseSensitive: bool)
    requires 0 < j < |rs| && rs[0].Check? && Adds(rs[j]) && TestsAreHarmless(v, rs, caseSensitive)
    ensures Harmless(v, rs, 0, caseSensitive)
  {
    hide Narrow, Ordered, Locate, Encode, Adds, Harmless;
  }

  /** In a document whose links are right, such a list keeps everything that it adds. */
  lemma {:induction false} HarmlessTestsKeepAll(doc: Tree, rs: seq<Request>, caseSensitive: bool)
    requires Sound(doc) && TestsAreHarmless(Plain(doc), rs, caseSensitive)
    ensures KeepsAll(doc, rs, caseSensitive)
    decreases |rs|
  {
    hide ApplyTree, ApplyPatch, RequestDocument, DecodeOperation, Sound, Keeps, TestsAreHarmless, Plain, Adds;
    if rs == [] {
      return;
    }
    var p, e := RequestDocument(rs[0]), ApplyTree(doc, RequestDocument(rs[0]), caseSensitive);
    match rs[0] {
      case Alter(edit) =>
        FieldsOfEdit(edit, caseSensitive);
        SoundStays(doc, p, caseSensitive);
        AppliesExactly(doc, p, caseSensitive);
        HarmlessRest(Plain(doc), Plain(e.document), rs, caseSensitive);
        HarmlessTestsKeepAll(e.document, rs[1..], caseSensitive);
      case Check(tokens, value) =>
        CheckAddsNothing(tokens, value);
        StepWithoutAddition(doc, rs[0], caseSensitive);
        if j :| 0 < j < |rs| && Adds(rs[j]) {
          FirstIsHarmless(Plain(doc), rs, j, caseSensitive);
          HarmlessStays(doc, tokens, value, caseSensitive);
          if e.status == 0 {
            HarmlessRest(Plain(doc), Plain(e.document), rs, caseSensitive);
            HarmlessTestsKeepAll(e.document, rs[1..], caseSensitive);
          }
        } else if e.Effect? {
          NothingAdded(e.document, rs[1..], caseSensitive);
        }
    }
  }

  // ---------------------------------------------------------------------------------------------
  // A move into a child of the node that is moved
  // ---------------------------------------------------------------------------------------------

  lemma PairRemovedAndAdded()
    ensures var d := NArray([NObject(map[]), NObject(map[])]);
            RemovedAndAdded(d, ["0"], ["0", "x"], Object([])) == Some(NArray([NObject(map["x" := NObject(map[])])]))
  {
    var e := NObject(map[]);
    var d, one, x := NArray([e, e]), NArray([e]), NObject(map["x" := e]);
    assert IsIndex("0") && DigitsValue("0") == 0;
    assert RemoveAt([e, e], 0) == [e];
    assert Changed(d, ["0"], Remove) == Some(one);
    assert Norm(Object([])) == e;
    assert ["0", "x"][1..] == ["x"];
    assert Changed(e, ["x"], Add(Object([]))) == Some(NObject(map[]["x" := e])) == Some(x);
    assert [e][0 := x] == [x];
  }

  /** Moving the first of two empty objects into its own member `x`, which the standard calls an error, moves it into
      the second one. */
  lemma MovedIntoNext(patch: Value, caseSensitive: bool)
    requires IsPatch(patch, "move", ["0"], ["0", "x"], caseSensitive)
    ensures var v := Array([Object([]), Object([])]);
            var r := ApplyPatch(v, patch, caseSensitive);
            && r.status == 0 && Norm(r.document) == NArray([NObject(map["x" := NObject(map[])])])
            && MoveAsked(Norm(v), ["0"], ["0", "x"], Object([])) == None
  {
    hide IsPatch, ApplyPatch, Safe, RemovedAndAdded, Patchable;
    var v, e, named := Array([Object([]), Object([])]), NObject(map[]), iset{"x"};
    var keys := WithArrayTokens(named);
    PlainNamesArePatchable(named);
    PatchableIsSafe(named);
    FineObject([], keys);
    PairRemovedAndAdded();
    assert NormItems([Object([]), Object([])]) == [e, e];
    assert IsIndex("0") && DigitsValue("0") == 0;
    assert ["0"] + ["0", "x"] == ["0", "0", "x"];
    assert NGet(Norm(v), ["0"]) == NGet(e, []);
    MoveRemovesAndAdds(v, patch, ["0"], ["0", "x"], Object([]), keys, caseSensitive);
  }

  // ---------------------------------------------------------------------------------------------
  // Generated patches, and a list that loses a member
  // ---------------------------------------------------------------------------------------------

  /** Generated patches contain no test. */
  lemma GeneratedHaveNoTest(edits: seq<Edit>, caseSensitive: bool)
    ensures forall p :: p in Documents([], edits) ==> DecodeOperation(p, caseSensitive) != TEST
  {
    hide DecodeOperation, PatchOf;
    forall p | p in Documents([], edits) ensures DecodeOperation(p, caseSensitive) != TEST {
      var i :| 0 <= i < |edits| && Documents([], edits)[i] == p;
      PatchFields([] + Encode(edits[i].tokens), edits[i].change, caseSensitive);
    }
  }

  /** Applied in place to a fresh copy of the earlier document, the generated patches reach the later one, and leave all
      links right. */
  lemma DiffThenPatchInPlace(from: Value, to: Value, keys: iset<Text>, caseSensitive: bool)
    requires Fine(from, keys) && Fine(to, keys) && Safe(keys)
    ensures var e := ApplyTreeAll(Fresh(from), Documents([], Edits(from, to, caseSensitive)), caseSensitive);
            e.Effect? && e.status == 0 && Norm(Plain(e.document)) == Norm(to) && Sound(e.document)
  {
    hide Norm, Edits, ApplyAll, ApplyTreeAll, Documents, Safe, Fine, DecodeOperation;
    DiffThenPatch(from, to, keys, caseSensitive);
    GeneratedHaveNoTest(Edits(from, to, caseSensitive), caseSensitive);
    SoundStaysThroughout(Fresh(from), Documents([], Edits(from, to, caseSensitive)), caseSensitive);
  }

  function Flat(names: seq<Text>): (ms: seq<Keyed<Tree>>)
    ensures |ms| == |names| && forall i :: 0 <= i < |ms| ==> ms[i] == Keyed(names[i], Leaf(Null))
  {
    seq(|names|, i requires 0 <= i < |names| => Keyed(names[i], Leaf(Null)))
  }

  lemma PairSorted(x: Text, y: Text, caseSensitive: bool)
    requires CompareStrings(x, y, caseSensitive) > 0
    ensures Sort(Flat([x, y]), caseSensitive) == Flat([y, x])
  {
    hide CompareStrings, Sort;
    var a, b := Keyed(x, Leaf(Null)), Keyed(y, Leaf(Null));
    assert Flat([x, y]) == [a, b] && Flat([y, x]) == [b, a];
    SortPair(a, b, caseSensitive);
  }

  lemma PairSwapped(x: Text, y: Text, caseSensitive: bool)
    requires CompareStrings(x, y, caseSensitive) > 0
    ensures AfterSort(At(1), Order(Keys(Flat([x, y])), caseSensitive)) == Nothing
  {
    hide CompareStrings, Sort;
    var keys: seq<Text> := Keys(Flat([x, y]));
    assert Numbered(keys) == [Keyed(x, 0), Keyed(y, 1)];
    SortPair<nat>(Keyed(x, 0), Keyed(y, 1), caseSensitive);
    assert Order(keys, caseSensitive)[0] == 1;
  }

  /** Comparing an object whose two members are in the wrong order with itself leaves the first child without `prev`. */
  lemma PairCompared(x: Text, y: Text, caseSensitive: bool)
    requires CompareStrings(x, y, caseSensitive) > 0
    ensures var t := Group(Flat([x, y]), At(1));
            Compared(t, t, caseSensitive) == Outcome(true, Group(Flat([y, x]), Nothing), Group(Flat([y, x]), Nothing))
  {
    hide CompareStrings, Sort, Order, AfterSort, ComparedMembers;
    var a, b := Keyed(x, Leaf(Null)), Keyed(y, Leaf(Null));
    PairSorted(x, y, caseSensitive);
    PairSwapped(x, y, caseSensitive);
    ArrangedInside(Flat([x, y]), At(1), caseSensitive);
    assert Flat([y, x]) == [b, a];
    SelfCompared(b, a, caseSensitive, Group(Flat([x, y]), At(1)));
  }

  lemma SelfCompared(a: Keyed<Tree>, b: Keyed<Tree>, caseSensitive: bool, t: Tree)
    requires TreesInside([a, b], t) && a.value == b.value == Leaf(Null)
    ensures ComparedMembers([a, b], [a, b], caseSensitive, t) == Outcome(true, [a, b], [a, b])
  {
    StrCmpZero(Fold(a.key, caseSensitive), Fold(a.key, caseSensitive));
    StrCmpZero(Fold(b.key, caseSensitive), Fold(b.key, caseSensitive));
    assert Compared(Leaf(Null), Leaf(Null), caseSensitive) == Outcome(true, Leaf(Null), Leaf(Null));
    var none: seq<Keyed<Tree>> := [];
    OneCompared(b, [], caseSensitive, t);
    assert [b] + none == [b];
    OneCompared(a, [b], caseSensitive, t);
    assert [a] + [b] == [a, b];
  }

  lemma OneCompared(a: Keyed<Tree>, rest: seq<Keyed<Tree>>, caseSensitive: bool, t: Tree)
    requires TreesInside([a] + rest, t) && CompareStrings(a.key, a.key, caseSensitive) == 0
    requires Compared(a.value, a.value, caseSensitive) == Outcome(true, a.value, a.value)
    requires TreesInside(rest, t) ==> ComparedMembers(rest, rest, caseSensitive, t) == Outcome(true, rest, rest)
    ensures ComparedMembers([a] + rest, [a] + rest, caseSensitive, t) == Outcome(true, [a] + rest, [a] + rest)
  {
    hide CompareStrings, Compared;
    assert ([a] + rest)[1..] == rest;
  }

  /** Two members in the wrong order, a test of the whole document against its own value, and an addition of a third
      one: the list returns 0 and the third member is not there. */
  lemma AddAfterTestIsLost(x: Text, y: Text, z: Text, caseSensitive: bool)
    requires CompareStrings(x, y, caseSensitive) > 0 && !SameKey(z, x, caseSensitive) && !SameKey(z, y, caseSensitive)
    requires NulFree(z) && Recoverable(z)
    ensures var doc := Object([Keyed(x, Null), Keyed(y, Null)]);
            var rs := [Check([], doc), Alter(Edit([z], Add(Null)))];
            && ApplyTreeAll(Fresh(doc), RequestDocuments(rs), caseSensitive) == Effect(0, Group(Flat([y, x]), Nothing))
            && AskedAll(Norm(doc), rs).Some? && AskedAll(Norm(doc), rs).value.NObject?
            && z in AskedAll(Norm(doc), rs).value.members
  {
    var doc := Object([Keyed(x, Null), Keyed(y, Null)]);
    var rs := [Check([], doc), Alter(Edit([z], Add(Null)))];
    var ps := RequestDocuments(rs);
    var before, after := Group(Flat([x, y]), At(1)), Group(Flat([y, x]), Nothing);
    FreshPair(x, y);
    TestPasses(x, y, caseSensitive);
    AddIsLost(x, y, z, caseSensitive);
    hide ApplyTree, RequestDocument, Fresh, Flat, CompareStrings, SameKey;
    assert ps[0] == RequestDocument(rs[0]) && ps[1] == RequestDocument(rs[1]) && ps[1..][0] == ps[1];
    assert ps[1..][1..] == [];
    assert ApplyTreeAll(after, ps[1..][1..], caseSensitive) == Effect(0, after);
    assert rs[1..] == [rs[1]] && rs[1..][1..] == [];
    ThirdIsAsked(doc, rs, z);
  }

  lemma ThirdIsAsked(doc: Value, rs: seq<Request>, z: Text)
    requires doc.Object? && rs == [Check([], doc), Alter(Edit([z], Add(Null)))]
    ensures var asked := AskedAll(Norm(doc), rs); asked.Some? && asked.value.NObject? && z in asked.value.members
  {
    var m := NormMembers(doc.members);
    assert rs[1..] == [rs[1]] && rs[1..][1..] == [];
    assert Asked(Norm(doc), rs[0]) == Some(NObject(m));
    assert Asked(NObject(m), rs[1]) == Some(NObject(m[z := NNull]));
    assert AskedAll(NObject(m[z := NNull]), []) == Some(NObject(m[z := NNull]));
    assert AskedAll(NObject(m), rs[1..]) == Some(NObject(m[z := NNull]));
  }

  lemma FreshPair(x: Text, y: Text)
    ensures Fresh(Object([Keyed(x, Null), Keyed(y, Null)])) == Group(Flat([x, y]), At(1))
  {}

  lemma TestedWhole(t: Tree, patch: Value, value: Value, caseSensitive: bool)
    requires GetMember(patch, "path", caseSensitive) == Some(Str([]))
    requires GetMember(patch, "value", caseSensitive) == Some(value)
    requires DecodeOperation(patch, caseSensitive) == TEST
    ensures var r := Compared(t, Fresh(value), caseSensitive);
            ApplyTree(t, patch, caseSensitive) == Effect(if r.same then 0 else 1, r.a)
  {
    hide GetMember, DecodeOperation, Compared, Fresh, Plain;
    assert Locate(Plain(t), [], caseSensitive) == Some([]);
  }

  lemma TestPasses(x: Text, y: Text, caseSensitive: bool)
    requires CompareStrings(x, y, caseSensitive) > 0
    ensures var doc, after := Object([Keyed(x, Null), Keyed(y, Null)]), Group(Flat([y, x]), Nothing);
            ApplyTree(Fresh(doc), RequestDocument(Check([], doc)), caseSensitive) == Effect(0, after)
  {
    hide GetMember, DecodeOperation, Compared, Fresh, Flat, CompareStrings, ApplyTree, RequestDocument;
    var doc := Object([Keyed(x, Null), Keyed(y, Null)]);
    CheckFields([], doc, caseSensitive);
    NoTokens();
    FreshPair(x, y);
    PairCompared(x, y, caseSensitive);
    TestedWhole(Fresh(doc), RequestDocument(Check([], doc)), doc, caseSensitive);
  }

  lemma NotInPair(x: Text, y: Text, z: Text, caseSensitive: bool)
    requires !SameKey(z, x, caseSensitive) && !SameKey(z, y, caseSensitive)
    ensures FindKey(Flat([y, x]), 0, z, caseSensitive) == None
  {
    hide SameKey;
    assert FindKey(Flat([y, x]), 2, z, caseSensitive) == None;
    assert FindKey(Flat([y, x]), 1, z, caseSensitive) == None;
  }

  lemma LinkToNothing(ms: seq<Keyed<Tree>>, z: Text, value: Tree, caseSensitive: bool)
    requires ms != [] && FindKey(ms, 0, z, caseSensitive) == None
    ensures LinkChild(Group(ms, Nothing), z, value, caseSensitive) == Effect(0, Group(ms, Nothing))
  {
    hide FindKey;
  }

  lemma LinkUnderRoot(t: Tree, z: Text, value: Tree, caseSensitive: bool)
    requires NulFree(z) && Recoverable(z) && LinkChild(t, z, value, caseSensitive) == Effect(0, t)
    ensures LinkPath(t, Encode([z]), value, caseSensitive) == Effect(0, t)
  {
    SplitSingle(z);
    DecodeUndoesEscape(z);
    hide Escape, DecodeInPlace, Recoverable, LastSlash, LinkChild, Plain, Encode, Locate, NulFree;
    LocateRoot(Plain(t), caseSensitive);
    var p := Encode([z]);
    assert p[..0] == [];
  }

  lemma LocateRoot(v: Value, caseSensitive: bool)
    ensures Locate(v, [], caseSensitive) == Some([])
  {}

  lemma AddIsLost(x: Text, y: Text, z: Text, caseSensitive: bool)
    requires !SameKey(z, x, caseSensitive) && !SameKey(z, y, caseSensitive) && NulFree(z) && Recoverable(z)
    ensures var t := Group(Flat([y, x]), Nothing);
            ApplyTree(t, RequestDocument(Alter(Edit([z], Add(Null)))), caseSensitive) == Effect(0, t)
  {
    hide GetMember, DecodeOperation, PatchOf, Escape, Recoverable, SameKey, Flat, LinkPath, LinkChild;
    var t := Group(Flat([y, x]), Nothing);
    PatchFields(Encode([z]), Add(Null), caseSensitive);
    NotInPair(x, y, z, caseSensitive);
    LinkToNothing(Flat([y, x]), z, Fresh(Null), caseSensitive);
    LinkUnderRoot(t, z, Fresh(Null), caseSensitive);
    assert Encode([z]) != [];
  }

  /** So `c` is lost when `{"b": null, "a": null}` is tested and then given a member `c`. */
  lemma LostMember(caseSensitive: bool)
    ensures var doc := Object([Keyed("b", Null), Keyed("a", Null)]);
            var rs := [Check([], doc), Alter(Edit(["c"], Add(Null)))];
            var e := ApplyTreeAll(Fresh(doc), RequestDocuments(rs), caseSensitive);
            && e.Effect? && e.status == 0 && Plain(e.document) == Object([Keyed("a", Null), Keyed("b", Null)])
            && !DoesAsAsked(e, AskedAll(Norm(doc), rs))
  {
    assert Fold("a", caseSensitive)[0] == 'a' && Fold("b", caseSensitive)[0] == 'b';
    assert Fold("c", caseSensitive)[0] == 'c';
    PlainIsRecoverable("c");
    AddAfterTestIsLost("b", "a", "c", caseSensitive);
    PlainFlatPair("a", "b");
    OneOfTwo("a", "b", "c");
  }

  lemma PlainFlatPair(x: Text, y: Text)
    ensures PlainMembers(Flat([x, y])) == [Keyed(x, Null), Keyed(y, Null)]
  {}

  lemma OneOfTwo(x: Text, y: Text, z: Text)
    requires z != x && z != y
    ensures z !in NormMembers([Keyed(x, Null), Keyed(y, Null)])
  {
    NormMembersKeys([Keyed(x, Null), Keyed(y, Null)]);
  }
}
