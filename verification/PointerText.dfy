/** Pointer texts as sections 3 and 4 of RFC 6901 define them, and that `compare_pointers`, `encode_string_as_pointer`,
    `decode_pointer_inplace` and the search for a pointer deal with exactly these. */
module PointerText {
  import opened Bytes
  import opened Json
  import opened JsonPointer
  import opened PointerDecode

  // ---------------------------------------------------------------------------------------------
  // The standard
  // ---------------------------------------------------------------------------------------------

  /** The syntax of a reference token: no slash, and behind every tilde a 0 or a 1. */
  predicate IsToken(t: Text) {
    && (forall i :: 0 <= i < |t| ==> t[i] != '/')
    && (forall i :: 0 <= i < |t| && t[i] == '~' ==> i + 1 < |t| && (t[i + 1] == '0' || t[i + 1] == '1'))
  }

  /** Every occurrence of a tilde and this digit is replaced. */
  function Substituted(t: Text, digit: byte, sign: byte): Text {
    if t == [] then []
    else if |t| > 1 && t[0] == '~' && t[1] == digit then [sign] + Substituted(t[2..], digit, sign)
    else [t[0]] + Substituted(t[1..], digit, sign)
  }

  /** A token is unescaped by first turning every `~1` into a slash and then every `~0` into a tilde. */
  function Unescaped(t: Text): Text {
    Substituted(Substituted(t, '1', '/'), '0', '~')
  }

  /** Where the token that begins at `k` ends: at the next slash, or at the end. */
  function TokenEnd(p: Text, k: nat): (e: nat)
    requires k <= |p|
    ensures k <= e <= |p|
    decreases |p| - k
  {
    if k < |p| && p[k] != '/' then TokenEnd(p, k + 1) else k
  }

  /** The unescaped tokens of a pointer; none if the text is no pointer. */
  function Tokens(p: Text): Option<seq<Text>>
    decreases |p|
  {
    if p == [] then Some([])
    else if p[0] != '/' then None
    else
      var e := TokenEnd(p, 1);
      if !IsToken(p[1..e]) then None else
      match Tokens(p[e..])
      case None => None
      case Some(rest) => Some([Unescaped(p[1..e])] + rest)
  }

  // ---------------------------------------------------------------------------------------------
  // Tokens
  // ---------------------------------------------------------------------------------------------

  /** How much of a token one character of the key takes. */
  function Unit(t: Text): nat
    requires t != []
  {
    if t[0] == '~' && |t| > 1 then 2 else 1
  }

  lemma TokenTail(t: Text)
    requires IsToken(t) && t != []
    ensures Unit(t) <= |t| && IsToken(t[Unit(t)..])
    ensures t[0] == '~' ==> |t| > 1 && (t[1] == '0' || t[1] == '1')
    ensures t == t[..Unit(t)] + t[Unit(t)..]
  {}

  /** Unescaping goes along the token. */
  lemma UnescapedStep(t: Text)
    requires IsToken(t) && t != []
    ensures var x := if t[0] != '~' then t[0] else if t[1] == '1' then '/' else '~';
            Unescaped(t) == [x] + Unescaped(t[Unit(t)..])
  {
    var once := Substituted(t, '1', '/');
    if t[0] == '~' && t[1] == '0' {
      assert t[1..][1..] == t[2..] && t[1..][0] == '0';
      assert once == ['~'] + Substituted(t[1..], '1', '/') == ['~'] + (['0'] + Substituted(t[2..], '1', '/'));
      assert once[2..] == Substituted(t[2..], '1', '/');
    } else if t[0] == '~' {
      assert once[1..] == Substituted(t[2..], '1', '/');
    } else {
      assert once[1..] == Substituted(t[1..], '1', '/');
    }
  }

  lemma EscapeStep(s: Text)
    requires s != []
    ensures Escape(s) == EscapeByte(s[0]) + Escape(s[1..])
  {}

  /** The token written for a key is a token, and unescapes to the key. */
  lemma {:induction false} EscapeIsUnescaped(key: Text)
    ensures IsToken(Escape(key)) && Unescaped(Escape(key)) == key
  {
    if key != [] {
      EscapeIsUnescaped(key[1..]);
      EscapeStep(key);
      hide Escape, Unescaped;
      PrefixedToken(key[0], Escape(key[1..]));
      UnescapedStep(Escape(key));
      assert Escape(key)[|EscapeByte(key[0])|..] == Escape(key[1..]);
    }
  }

  lemma PrefixedToken(x: byte, t: Text)
    requires IsToken(t)
    ensures IsToken(EscapeByte(x) + t)
  {}

  /** It is the only token that does. */
  lemma {:induction false} UnescapedIsEscape(t: Text)
    requires IsToken(t)
    ensures Escape(Unescaped(t)) == t
    decreases |t|
  {
    if t != [] {
      TokenTail(t);
      UnescapedStep(t);
      UnescapedIsEscape(t[Unit(t)..]);
      EscapeStep(Unescaped(t));
      hide Escape, Unescaped;
      assert Unescaped(t)[1..] == Unescaped(t[Unit(t)..]);
    }
  }

  /** `compare_pointers` accepts exactly the keys that equal the unescaped token, and none if it is no token. */
  lemma {:induction false} TokenMatches(name: Text, t: Text, rest: Text, caseSensitive: bool)
    requires '/' !in t && IsRest(rest)
    ensures MatchesToken(name, t + rest, caseSensitive) <==> IsToken(t) && SameKey(name, Unescaped(t), caseSensitive)
    decreases |t|
  {
    if IsToken(t) {
      UnescapedIsEscape(t);
      EscapedTokenMatches(name, Unescaped(t), rest, caseSensitive);
    } else {
      NoTokenMatches(name, t, rest, caseSensitive);
    }
  }

  lemma {:induction false} NoTokenMatches(name: Text, t: Text, rest: Text, caseSensitive: bool)
    requires '/' !in t && !IsToken(t) && IsRest(rest)
    ensures !MatchesToken(name, t + rest, caseSensitive)
    decreases |t|
  {
    var p := t + rest;
    assert t != [] && t[0] in t && p[0] == t[0];
    if name != [] {
      assert p[1..] == t[1..] + rest;
      if t[0] == '~' {
        if |t| > 1 && (t[1] == '0' || t[1] == '1') {
          assert p[2..] == t[2..] + rest;
          OtherTail(t, 2);
          NoTokenMatches(name[1..], t[2..], rest, caseSensitive);
        }
      } else {
        OtherTail(t, 1);
        NoTokenMatches(name[1..], t[1..], rest, caseSensitive);
      }
    }
  }

  lemma OtherTail(t: Text, n: nat)
    requires '/' !in t && !IsToken(t) && n <= |t| && n <= 2 && (n > 0 ==> (t[0] == '~' <==> n == 2))
    requires n == 2 ==> t[1] == '0' || t[1] == '1'
    ensures !IsToken(t[n..]) && '/' !in t[n..]
  {
    var i :| 0 <= i < |t| && t[i] == '~' && !(i + 1 < |t| && (t[i + 1] == '0' || t[i + 1] == '1'));
    assert n <= i && t[n..][i - n] == '~';
    assert i + 1 < |t| ==> t[n..][i - n + 1] == t[i + 1];
  }

  /** What `decode_pointer_inplace` makes of a token is what the standard makes of it exactly if the key is one of those
      that the code can recover. */
  lemma DecodedIsUnescaped(t: Text)
    requires IsToken(t) && NulFree(Unescaped(t))
    ensures DecodeInPlace(t) == Unescaped(t) <==> Recoverable(Unescaped(t))
  {
    UnescapedIsEscape(t);
    DecodeUndoesEscape(Unescaped(t));
  }

  // ---------------------------------------------------------------------------------------------
  // Pointers
  // ---------------------------------------------------------------------------------------------

  /** The pointer with these unescaped tokens. */
  function Encode(tokens: seq<Text>): (p: Text)
    ensures IsRest(p)
  {
    if tokens == [] then [] else "/" + Escape(tokens[0]) + Encode(tokens[1..])
  }

  lemma {:induction false} TokenEndIs(p: Text, k: nat, e: nat)
    requires k <= e <= |p| && (forall i :: k <= i < e ==> p[i] != '/') && (e < |p| ==> p[e] == '/')
    ensures TokenEnd(p, k) == e
    decreases e - k
  {
    if k < e {
      TokenEndIs(p, k + 1, e);
    }
  }

  lemma TokensStep(t: Text, rest: Text)
    requires IsToken(t) && IsRest(rest)
    ensures Tokens("/" + t + rest)
         == match Tokens(rest) case None => None case Some(tokens) => Some([Unescaped(t)] + tokens)
  {
    hide Unescaped;
    var p := "/" + t + rest;
    assert p[1..1 + |t|] == t && p[1 + |t|..] == rest;
    forall i | 1 <= i < 1 + |t| ensures p[i] != '/' {
      assert p[i] == t[i - 1];
    }
    TokenEndIs(p, 1, 1 + |t|);
  }

  lemma {:induction false} EncodedTokens(tokens: seq<Text>)
    ensures Tokens(Encode(tokens)) == Some(tokens)
    decreases |tokens|
  {
    if tokens != [] {
      hide Unescaped, Escape, IsToken, Tokens;
      EncodedTokens(tokens[1..]);
      EscapeIsUnescaped(tokens[0]);
      TokensStep(Escape(tokens[0]), Encode(tokens[1..]));
      assert [tokens[0]] + tokens[1..] == tokens;
    }
  }

  lemma {:induction false} TokensEncoded(p: Text)
    requires Tokens(p).Some?
    ensures Encode(Tokens(p).value) == p
    decreases |p|
  {
    hide Unescaped, Escape, IsToken;
    if p != [] {
      var e := TokenEnd(p, 1);
      TokensEncoded(p[e..]);
      UnescapedIsEscape(p[1..e]);
      assert p == "/" + p[1..e] + p[e..];
      var tokens := Tokens(p).value;
      assert tokens[1..] == Tokens(p[e..]).value;
    }
  }

  /** A text is a pointer with these tokens exactly if it is the one that is written for them. */
  lemma TokensAreEncoded(p: Text, tokens: seq<Text>)
    ensures Tokens(p) == Some(tokens) <==> p == Encode(tokens)
  {
    hide Tokens, Encode;
    EncodedTokens(tokens);
    if Tokens(p).Some? {
      TokensEncoded(p);
    }
  }

  /** A text that is not empty and does not start with a slash is no pointer, but the code takes it for the node
      itself. */
  lemma NoPointerNamesItself(v: Value, p: Text, caseSensitive: bool)
    requires p != [] && p[0] != '/'
    ensures Tokens(p) == None && Locate(v, p, caseSensitive) == Some([])
  {}

  /** The name of a child: the key of a member, or the number of an item. */
  function NameOf(v: Value, i: nat): Text
    requires i < Children(v)
  {
    match v
    case Array(_) => Decimal(i)
    case Object(ms) => ms[i].key
  }

  function NamesTo(v: Value, path: Path): seq<Text>
    requires ValidPath(v, path)
  {
    if path == [] then [] else [NameOf(v, path[0])] + NamesTo(Child(v, path[0]), path[1..])
  }

  /** The pointer found for a node is the one whose tokens are the names on the way to it. */
  lemma PointerSpellsPath(root: Value, target: Path)
    requires ValidPath(root, target)
    ensures FindPointer(root, [], target).Some?
    ensures Tokens(FindPointer(root, [], target).value) == Some(NamesTo(root, target))
  {
    SearchFinds(root, [], target);
    assert target[0..] == target;
    PointerIsEncoded(root, target);
    EncodedTokens(NamesTo(root, target));
  }

  lemma {:induction false} PointerIsEncoded(v: Value, path: Path)
    requires ValidPath(v, path)
    ensures PointerTo(v, path) == Encode(NamesTo(v, path))
    decreases path
  {
    hide Escape;
    if path != [] {
      PointerIsEncoded(Child(v, path[0]), path[1..]);
      if v.Array? {
        DecimalIsIndex(path[0]);
      }
      var names := NamesTo(v, path);
      assert names[1..] == NamesTo(Child(v, path[0]), path[1..]);
      assert Escape(names[0]) == TokenOf(v, path[0]);
    }
  }
}
