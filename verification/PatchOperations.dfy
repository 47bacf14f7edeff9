/** The operations of section 4 of RFC 6902 that generated patches do not use: move, copy and test. */
module PatchOperations {
  import opened Bytes
  import opened Json
  import opened JsonPointer
  import opened PointerText
  import opened JsonNormal
  import opened JsonCompare
  import opened JsonPatch
  import opened PatchReference

  /** Resolving a pointer finds what section 4 of RFC 6901 says its tokens name, and nothing where they name nothing. */
  lemma LocateRefines(v: Value, p: Text, tokens: seq<Text>, keys: iset<Text>, caseSensitive: bool)
    requires Fine(v, keys) && Separates(keys, caseSensitive) && Tokens(p) == Some(tokens)
    requires NGet(Norm(v), tokens).Some? || (ProperTokens(Norm(v), tokens) && forall t :: t in tokens ==> t in keys)
    ensures var at := Locate(v, p, caseSensitive);
            && (at.Some? <==> NGet(Norm(v), tokens).Some?)
            && (at.Some? ==>
                  && ValidPath(v, at.value)
                  && Norm(GetAt(v, at.value)) == NGet(Norm(v), tokens).value && Fine(GetAt(v, at.value), keys))
  {
    hide Norm, Fine, Separates, Tokens, ProperTokens;
    TokensAreEncoded(p, tokens);
    LocateEncoded(v, tokens, keys, caseSensitive);
  }

  lemma {:induction false} LocateEncoded(v: Value, tokens: seq<Text>, keys: iset<Text>, caseSensitive: bool)
    requires Fine(v, keys) && Separates(keys, caseSensitive)
    requires NGet(Norm(v), tokens).Some? || (ProperTokens(Norm(v), tokens) && forall t :: t in tokens ==> t in keys)
    ensures var at := Locate(v, Encode(tokens), caseSensitive);
            && (at.Some? <==> NGet(Norm(v), tokens).Some?)
            && (at.Some? ==>
                  && ValidPath(v, at.value)
                  && Norm(GetAt(v, at.value)) == NGet(Norm(v), tokens).value && Fine(GetAt(v, at.value), keys))
    decreases |tokens|
  {
    hide Norm, Fine, Separates, NChild, Step, Escape, ProperToken;
    if tokens != [] && NChild(Norm(v), tokens[0]).None? {
      StepFails(v, tokens[0], Encode(tokens[1..]), keys, caseSensitive);
      assert Encode(tokens)[1..] == Escape(tokens[0]) + Encode(tokens[1..]);
    } else if tokens != [] {
      var rest := Encode(tokens[1..]);
      var i := StepRefines(v, tokens[0], rest, keys, caseSensitive);
      LocateStep(v, i, Escape(tokens[0]), rest, caseSensitive);
      LocateEncoded(Child(v, i), tokens[1..], keys, caseSensitive);
      var below := Locate(Child(v, i), rest, caseSensitive);
      if below.Some? {
        assert ([i] + below.value)[1..] == below.value;
      }
    }
  }

  /** What is added counts only up to member order. */
  lemma {:induction false} AddOfEqual(d: NValue, tokens: seq<Text>, x: Value, y: Value)
    requires Norm(x) == Norm(y)
    ensures Changed(d, tokens, Add(x)) == Changed(d, tokens, Add(y))
    decreases |tokens|
  {
    hide Norm;
    if |tokens| > 1 && NChild(d, tokens[0]).Some? {
      AddOfEqual(NChild(d, tokens[0]).value, tokens[1..], x, y);
    }
  }

  /** A patch document with this text for its operation and these paths. */
  predicate IsPatch(patch: Value, op: Text, from: seq<Text>, path: seq<Text>, caseSensitive: bool) {
    && GetMember(patch, "op", caseSensitive) == Some(Str(op))
    && Points(patch, "path", path, caseSensitive) && Points(patch, "from", from, caseSensitive)
  }

  /** Such a document written out. */
  lemma WrittenPatch(op: Text, p: Text, path: seq<Text>, q: Text, from: seq<Text>, caseSensitive: bool)
    requires Tokens(p) == Some(path) && Tokens(q) == Some(from)
    ensures IsPatch(Object([Keyed("op", Str(op)), Keyed("path", Str(p)), Keyed("from", Str(q))]), op, from, path,
                    caseSensitive)
  {
    hide Tokens;
    var ms := [Keyed("op", Str(op)), Keyed("path", Str(p)), Keyed("from", Str(q))];
    assert |Fold("op", caseSensitive)| == 2 && |Fold("path", caseSensitive)| == |Fold("from", caseSensitive)| == 4;
    assert Fold("path", caseSensitive)[0] != Fold("from", caseSensitive)[0];
    assert FindKey(ms, 0, "op", caseSensitive) == Some(0);
    assert FindKey(ms, 1, "path", caseSensitive) == Some(1) == FindKey(ms, 0, "path", caseSensitive);
    assert FindKey(ms, 2, "from", caseSensitive) == Some(2) == FindKey(ms, 1, "from", caseSensitive);
  }

  /** A removal and an addition, one after the other, where `item` stands for the node moved. */
  function RemovedAndAdded(d: NValue, from: seq<Text>, path: seq<Text>, item: Value): Option<NValue> {
    match Changed(d, from, Remove)
    case None => None
    case Some(r) => Changed(r, path, Add(item))
  }

  /** What section 4 of RFC 6902 makes of a move: an error if it goes into one of the node's own children. */
  function MoveAsked(d: NValue, from: seq<Text>, path: seq<Text>, item: Value): Option<NValue> {
    if from < path then None else RemovedAndAdded(d, from, path, item)
  }

  /** And of a copy. */
  function CopyAsked(d: NValue, from: seq<Text>, path: seq<Text>, item: Value): Option<NValue> {
    if NGet(d, from).None? then None else Changed(d, path, Add(item))
  }

  predicate ProperMove(d: NValue, from: seq<Text>, path: seq<Text>) {
    ProperTokens(d, from) && (Changed(d, from, Remove).Some? ==> ProperTokens(Changed(d, from, Remove).value, path))
  }

  /** The code takes a node out and adds it elsewhere, wherever that is. */
  lemma MoveRemovesAndAdds(v: Value, patch: Value, from: seq<Text>, path: seq<Text>, item: Value, keys: iset<Text>,
                           caseSensitive: bool)
    requires Fine(v, keys) && Safe(keys) && (forall t :: t in from + path ==> t in keys)
    requires IsPatch(patch, "move", from, path, caseSensitive) && path != []
    requires NGet(Norm(v), from).Some? ==> NGet(Norm(v), from).value == Norm(item)
    requires RemovedAndAdded(Norm(v), from, path, item).Some? || ProperMove(Norm(v), from, path)
    ensures var r, done := ApplyPatch(v, patch, caseSensitive), RemovedAndAdded(Norm(v), from, path, item);
            && (r.status == 0 <==> done.Some?)
            && (r.status == 0 ==> Norm(r.document) == done.value && Fine(r.document, keys))
  {
    hide Norm, Fine, Safe, GetMember, DecodeOperation, DetachPath, AddPath, Changed, NGet, ProperTokens;
    assert forall t :: t in from ==> t in from + path;
    assert forall t :: t in path ==> t in from + path;
    DetachRefines(v, from, keys, caseSensitive);
    MoveUnfolds(v, patch, from, path, caseSensitive);
    if Changed(Norm(v), from, Remove).Some? {
      var d := DetachPath(v, Encode(from), caseSensitive).value;
      AddOfEqual(Norm(d.document), path, item, d.item);
      AddRefines(d.document, path, d.item, keys, caseSensitive);
    }
  }

  /** An array item that another one follows, and in that one the rest of a path behind the item's own can be added:
      taking the first one out makes the path name a place in the second one. */
  predicate NextItemTakes(d: NValue, from: seq<Text>, path: seq<Text>, item: Value) {
    from < path && from != [] && (
      var parent, t := NGet(d, from[..|from| - 1]), from[|from| - 1];
      && parent.Some? && parent.value.NArray? && IsIndex(t) && DigitsValue(t) + 1 < |parent.value.items|
      && Changed(parent.value.items[DigitsValue(t) + 1], path[|from|..], Add(item)).Some?)
  }

  lemma BelowOneToken(d: NValue, t: Text, path: seq<Text>, item: Value)
    requires [t] < path
    ensures RemovedAndAdded(d, [t], path, item).Some? <==> NextItemTakes(d, [t], path, item)
  {
    hide Norm;
    assert [t][..0] == [] && path[0] == [t][0] && path[|[t]|..] == path[1..];
  }

  lemma BelowFirstToken(d: NValue, from: seq<Text>, path: seq<Text>, item: Value)
    requires from < path && |from| > 1
    ensures var c := NChild(d, from[0]);
            && from[1..] < path[1..]
            && (c.None? ==> !NextItemTakes(d, from, path, item) && RemovedAndAdded(d, from, path, item).None?)
            && (c.Some? ==> (NextItemTakes(d, from, path, item)
                             <==> NextItemTakes(c.value, from[1..], path[1..], item)))
  {
    assert from[..|from| - 1][0] == from[0] && from[..|from| - 1][1..] == from[1..][..|from[1..]| - 1];
    assert path[|from|..] == path[1..][|from[1..]|..];
    hide Changed, NChild;
    if NChild(d, from[0]).None? {
      RemoveFromNothing(d, from, path, item);
    }
  }

  lemma RemoveFromNothing(d: NValue, from: seq<Text>, path: seq<Text>, item: Value)
    requires |from| > 1 && NChild(d, from[0]).None?
    ensures RemovedAndAdded(d, from, path, item).None?
  {}

  lemma BothBelow(d: NValue, from: seq<Text>, path: seq<Text>, item: Value)
    requires |from| > 1 && |path| > 1 && path[0] == from[0] && NChild(d, from[0]).Some?
    ensures RemovedAndAdded(d, from, path, item).Some?
       <==> RemovedAndAdded(NChild(d, from[0]).value, from[1..], path[1..], item).Some?
  {
    hide Norm, ChangeHere;
    var r := Changed(NChild(d, from[0]).value, from[1..], Remove);
    if r.Some? {
      assert NChild(NWithChild(d, from[0], r.value), path[0]) == r;
    }
  }

  /** That is the only way to add something below a node that has been taken out. */
  lemma {:induction false} BelowItself(d: NValue, from: seq<Text>, path: seq<Text>, item: Value)
    requires from < path
    ensures RemovedAndAdded(d, from, path, item).Some? <==> NextItemTakes(d, from, path, item)
    decreases |from|
  {
    if |from| == 1 {
      assert from == [from[0]];
      BelowOneToken(d, from[0], path, item);
    } else if |from| > 1 {
      BelowFirstToken(d, from, path, item);
      hide NextItemTakes, RemovedAndAdded;
      var c := NChild(d, from[0]);
      if c.Some? {
        BothBelow(d, from, path, item);
        BelowItself(c.value, from[1..], path[1..], item);
      }
    }
  }

  /** A move does what the standard says, errors included, exactly if it does not go into a child of the node itself
      that is a place in the next item as well. */
  lemma MoveRefines(v: Value, patch: Value, from: seq<Text>, path: seq<Text>, item: Value, keys: iset<Text>,
                    caseSensitive: bool)
    requires Fine(v, keys) && Safe(keys) && (forall t :: t in from + path ==> t in keys)
    requires IsPatch(patch, "move", from, path, caseSensitive) && path != []
    requires NGet(Norm(v), from).Some? ==> NGet(Norm(v), from).value == Norm(item)
    requires RemovedAndAdded(Norm(v), from, path, item).Some? || ProperMove(Norm(v), from, path)
    ensures var r, asked := ApplyPatch(v, patch, caseSensitive), MoveAsked(Norm(v), from, path, item);
            && ((r.status == 0 <==> asked.Some?) <==> !NextItemTakes(Norm(v), from, path, item))
            && (asked.Some? ==> r.status == 0 && Norm(r.document) == asked.value)
            && (r.status == 0 ==> Fine(r.document, keys))
  {
    hide Norm, Fine, Safe, ApplyPatch, RemovedAndAdded, NextItemTakes, Changed, NGet, ProperMove, IsPatch;
    MoveRemovesAndAdds(v, patch, from, path, item, keys, caseSensitive);
    if from < path {
      BelowItself(Norm(v), from, path, item);
    } else {
      assert !NextItemTakes(Norm(v), from, path, item) by { OnlyBelow(Norm(v), from, path, item); }
    }
  }

  lemma OnlyBelow(d: NValue, from: seq<Text>, path: seq<Text>, item: Value)
    ensures NextItemTakes(d, from, path, item) ==> from < path
  {}

  /** A copy adds the node elsewhere, or is refused where the standard calls it an error. */
  lemma CopyRefines(v: Value, patch: Value, from: seq<Text>, path: seq<Text>, item: Value, keys: iset<Text>,
                    caseSensitive: bool)
    requires Fine(v, keys) && Safe(keys) && (forall t :: t in from + path ==> t in keys)
    requires IsPatch(patch, "copy", from, path, caseSensitive) && path != []
    requires NGet(Norm(v), from).Some? ==> NGet(Norm(v), from).value == Norm(item)
    requires CopyAsked(Norm(v), from, path, item).Some? || (ProperTokens(Norm(v), from) && ProperTokens(Norm(v), path))
    ensures var r, asked := ApplyPatch(v, patch, caseSensitive), CopyAsked(Norm(v), from, path, item);
            && (r.status == 0 <==> asked.Some?)
            && (r.status == 0 ==> Norm(r.document) == asked.value && Fine(r.document, keys))
  {
    hide Norm, Fine, Safe, GetMember, DecodeOperation, DetachPath, AddPath, Changed, NGet, ProperTokens;
    assert forall t :: t in from ==> t in from + path;
    assert forall t :: t in path ==> t in from + path;
    SafeSeparates(keys, caseSensitive);
    LocateEncoded(v, from, keys, caseSensitive);
    CopyUnfolds(v, patch, from, path, caseSensitive);
    if NGet(Norm(v), from).Some? {
      var node := GetAt(v, Locate(v, Encode(from), caseSensitive).value);
      AddOfEqual(Norm(v), path, item, node);
      AddRefines(v, path, node, keys, caseSensitive);
    }
  }

  lemma ReadPatch(patch: Value, op: Text, from: seq<Text>, path: seq<Text>, caseSensitive: bool)
    requires IsPatch(patch, op, from, path, caseSensitive)
    ensures GetMember(patch, "op", caseSensitive) == Some(Str(op))
    ensures GetMember(patch, "path", caseSensitive) == Some(Str(Encode(path)))
    ensures GetMember(patch, "from", caseSensitive) == Some(Str(Encode(from)))
  {
    hide GetMember, Tokens, Encode;
    TokensAreEncoded(GetMember(patch, "path", caseSensitive).value.s, path);
    TokensAreEncoded(GetMember(patch, "from", caseSensitive).value.s, from);
  }

  lemma MoveUnfolds(v: Value, patch: Value, from: seq<Text>, path: seq<Text>, caseSensitive: bool)
    requires IsPatch(patch, "move", from, path, caseSensitive)
    ensures ApplyPatch(v, patch, caseSensitive)
         == match DetachPath(v, Encode(from), caseSensitive)
            case None => Applied(5, v)
            case Some(d) => AddPath(d.document, Encode(path), d.item, caseSensitive)
  {
    hide GetMember, DetachPath, AddPath, Locate, Encode, IsPatch;
    ReadPatch(patch, "move", from, path, caseSensitive);
  }

  lemma CopyUnfolds(v: Value, patch: Value, from: seq<Text>, path: seq<Text>, caseSensitive: bool)
    requires IsPatch(patch, "copy", from, path, caseSensitive)
    ensures ApplyPatch(v, patch, caseSensitive)
         == match Locate(v, Encode(from), caseSensitive)
            case None => Applied(5, v)
            case Some(at) => AddPath(v, Encode(path), GetAt(v, at), caseSensitive)
  {
    hide GetMember, DetachPath, AddPath, Locate, Encode, IsPatch;
    ReadPatch(patch, "copy", from, path, caseSensitive);
  }

  /** Moving or copying to the place of the whole document, which section 4 of RFC 6902 allows, always fails. */
  lemma MoveToRootFails(v: Value, patch: Value, from: seq<Text>, caseSensitive: bool)
    requires IsPatch(patch, "move", from, [], caseSensitive) || IsPatch(patch, "copy", from, [], caseSensitive)
    ensures ApplyPatch(v, patch, caseSensitive).status != 0
  {
    hide IsPatch, ApplyPatch, DetachPath, AddPath, Locate, Encode;
    forall d, x ensures AddPath(d, Encode([]), x, caseSensitive).status != 0 {
      NoPathToRoot(d, x, caseSensitive);
    }
    if IsPatch(patch, "move", from, [], caseSensitive) {
      MoveUnfolds(v, patch, from, [], caseSensitive);
    } else {
      CopyUnfolds(v, patch, from, [], caseSensitive);
    }
  }

  lemma NoTokens()
    ensures Encode([]) == []
  {}

  /** A test returns 0 if its path names a node that equals the value up to member order, and otherwise 1. */
  lemma TestIsEquality(v: Value, patch: Value, path: seq<Text>, value: Value, keys: iset<Text>, caseSensitive: bool)
    requires Fine(v, keys) && Fine(value, keys) && Separates(keys, caseSensitive)
    requires NGet(Norm(v), path).Some? || (ProperTokens(Norm(v), path) && forall t :: t in path ==> t in keys)
    requires GetMember(patch, "op", caseSensitive) == Some(Str("test"))
    requires GetMember(patch, "value", caseSensitive) == Some(value) && Points(patch, "path", path, caseSensitive)
    ensures ApplyPatch(v, patch, caseSensitive) == Applied(if NGet(Norm(v), path) == Some(Norm(value)) then 0 else 1, v)
  {
    hide Norm, Fine, Separates, GetMember, NGet, TestAt, ProperTokens, Tokens, Encode;
    TokensAreEncoded(GetMember(patch, "path", caseSensitive).value.s, path);
    TestAtIsEquality(v, patch, path, value, keys, caseSensitive);
  }

  lemma TestAtIsEquality(v: Value, patch: Value, path: seq<Text>, value: Value, keys: iset<Text>, caseSensitive: bool)
    requires Fine(v, keys) && Fine(value, keys) && Separates(keys, caseSensitive)
    requires NGet(Norm(v), path).Some? || (ProperTokens(Norm(v), path) && forall t :: t in path ==> t in keys)
    requires GetMember(patch, "value", caseSensitive) == Some(value)
    ensures TestAt(v, patch, Encode(path), caseSensitive) <==> NGet(Norm(v), path) == Some(Norm(value))
  {
    hide Norm, Fine, Separates, GetMember, NGet, Locate, Same, ProperTokens;
    LocateEncoded(v, path, keys, caseSensitive);
    if NGet(Norm(v), path).Some? {
      SameIsEquality(GetAt(v, Locate(v, Encode(path), caseSensitive).value), value, keys, caseSensitive);
    }
  }

  /** The text of the operation is one that section 4 of RFC 6902 knows. */
  predicate KnownOperation(patch: Value, caseSensitive: bool) {
    match GetMember(patch, "op", caseSensitive)
    case Some(Str(s)) =>
      s == "add" || s == "remove" || s == "replace" || s == "move" || s == "copy" || s == "test"
    case _ => false
  }

  predicate HasPath(patch: Value, caseSensitive: bool) {
    match GetMember(patch, "path", caseSensitive)
    case Some(Str(_)) => true
    case _ => false
  }

  /** A patch document without a path, or without one of the six operations, leaves the document and returns 2 or 3,
      and nothing else does. */
  lemma MalformedFails(v: Value, patch: Value, caseSensitive: bool)
    ensures var r := ApplyPatch(v, patch, caseSensitive);
            && (!HasPath(patch, caseSensitive) ==> r == Applied(2, v))
            && (HasPath(patch, caseSensitive) && !KnownOperation(patch, caseSensitive) ==> r == Applied(3, v))
            && (HasPath(patch, caseSensitive) && KnownOperation(patch, caseSensitive) ==>
                  r.status != 2 && r.status != 3)
  {
    hide GetMember, DetachPath, AddPath, Locate, TestAt;
    if HasPath(patch, caseSensitive) && KnownOperation(patch, caseSensitive) {
      var path, op := GetMember(patch, "path", caseSensitive).value.s, DecodeOperation(patch, caseSensitive);
      OperationStatus(v, patch, op, path, caseSensitive);
    }
  }

  lemma AddStatus(v: Value, path: Text, value: Value, caseSensitive: bool)
    ensures AddPath(v, path, value, caseSensitive).status in {0, 9, 10, 11}
  {
    hide LastSlash, Locate, FindKey, DecodeIndex;
  }

  lemma ValueStatus(v: Value, patch: Value, path: Text, caseSensitive: bool)
    ensures ApplyValue(v, patch, path, caseSensitive).status in {0, 7, 9, 10, 11}
  {
    hide GetMember, AddPath;
    var value := GetMember(patch, "value", caseSensitive);
    if value.Some? {
      AddStatus(v, path, value.value, caseSensitive);
    }
  }

  lemma FromStatus(v: Value, patch: Value, op: Operation, path: Text, caseSensitive: bool)
    ensures ApplyFrom(v, patch, op, path, caseSensitive).status in {0, 4, 5, 9, 10, 11}
  {
    hide GetMember, AddPath, DetachPath, Locate;
    forall d, x ensures AddPath(d, path, x, caseSensitive).status in {0, 9, 10, 11} {
      AddStatus(d, path, x, caseSensitive);
    }
  }

  lemma OperationStatus(v: Value, patch: Value, op: Operation, path: Text, caseSensitive: bool)
    requires op != INVALID
    ensures ApplyOperation(v, patch, op, path, caseSensitive).status !in {2, 3}
  {
    hide ApplyValue, ApplyFrom, TestAt, DetachPath;
    FromStatus(v, patch, op, path, caseSensitive);
    forall d ensures ApplyValue(d, patch, path, caseSensitive).status in {0, 7, 9, 10, 11} {
      ValueStatus(d, patch, path, caseSensitive);
    }
  }
}
