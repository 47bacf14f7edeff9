/** JSON Pointer (RFC 6901) in cJSON_Utils.c: finding the pointer of a node, and the node of a pointer. */
module JsonPointer {
  import opened Bytes
  import opened Json

  // ---------------------------------------------------------------------------------------------
  // Tokens
  // ---------------------------------------------------------------------------------------------

  function EscapeByte(b: byte): Text {
    if b == '/' then "~1" else if b == '~' then "~0" else [b]
  }

  /** The token that names the key `s`: `~0` for a tilde, `~1` for a slash. */
  function Escape(s: Text): (t: Text)
    ensures '/' !in t
    ensures |t| >= |s|
  {
    if s == [] then [] else EscapeByte(s[0]) + Escape(s[1..])
  }

  lemma {:induction false} EscapeAppend(s: Text, b: byte)
    ensures Escape(s + [b]) == Escape(s) + EscapeByte(b)
  {
    if s == [] {
      assert [] + [b] == [b] && [b][1..] == [];
    } else {
      assert (s + [b])[1..] == s[1..] + [b];
      EscapeAppend(s[1..], b);
    }
  }

  lemma {:induction false} EscapePlain(s: Text)
    requires '~' !in s && '/' !in s
    ensures Escape(s) == s
  {
    if s != [] {
      assert s[0] in s && forall x :: x in s[1..] ==> x in s;
      EscapePlain(s[1..]);
    }
  }

  /** `pointer_encoded_length`. */
  method PointerEncodedLength(s: Text) returns (length: nat)
    ensures length == |Escape(s)|
  {
    length := 0;
    for i := 0 to |s|
      invariant length == |Escape(s[..i])|
    {
      assert s[..i + 1] == s[..i] + [s[i]];
      EscapeAppend(s[..i], s[i]);
      if s[i] == '~' || s[i] == '/' {
        length := length + 1;
      }
      length := length + 1;
    }
    assert s[..|s|] == s;
  }

  /** `encode_string_as_pointer`: the token exactly fills the buffer that `pointer_encoded_length` has sized. */
  method EncodeStringAsPointer(source: Text) returns (destination: array<byte>)
    ensures destination[..] == Escape(source) + "\0"
  {
    var length := PointerEncodedLength(source);
    destination := new byte[length + 1];
    var o := 0;
    ghost var done: Text := [];
    for i := 0 to |source|
      invariant done + Escape(source[i..]) == Escape(source) && o == |done| <= length
      invariant forall k :: 0 <= k < o ==> destination[k] == done[k]
    {
      Regroup(done, EscapeByte(source[i]), Escape(source[i + 1..]));
      assert source[i..][1..] == source[i + 1..];
      if source[i] == '/' {
        destination[o], destination[o + 1] := '~', '1';
        o := o + 2;
      } else if source[i] == '~' {
        destination[o], destination[o + 1] := '~', '0';
        o := o + 2;
      } else {
        destination[o] := source[i];
        o := o + 1;
      }
      done := done + EscapeByte(source[i]);
    }
    assert done == Escape(source);
    destination[o] := '\0';
  }

  lemma Regroup(s: Text, t: Text, u: Text)
    ensures s + (t + u) == (s + t) + u
  {}

  /** What follows the current token: nothing, or a slash and more. */
  predicate IsRest(rest: Text) {
    rest == [] || rest[0] == '/'
  }

  /** What `get_item_from_pointer` skips to behind a token. */
  function SkipToken(p: Text): Text {
    if p == [] || p[0] == '/' then p else SkipToken(p[1..])
  }

  lemma {:induction false} SkipWholeToken(t: Text, rest: Text)
    requires '/' !in t && IsRest(rest)
    ensures SkipToken(t + rest) == rest
  {
    if t == [] {
      assert t + rest == rest;
    } else {
      assert (t + rest)[0] == t[0] && t[0] in t;
      assert (t + rest)[1..] == t[1..] + rest;
      SkipWholeToken(t[1..], rest);
    }
  }

  /** `compare_pointers`: does the token in front of `p` name the key `name`? */
  function MatchesToken(name: Text, p: Text, caseSensitive: bool): bool {
    if name != [] && p != [] && p[0] != '/' then
      if p[0] == '~' then
        if !(At(p, 1) == '0' && name[0] == '~') && !(At(p, 1) == '1' && name[0] == '/') then false
        else MatchesToken(name[1..], p[2..], caseSensitive)
      else if (!caseSensitive && Lower(name[0]) != Lower(p[0])) || (caseSensitive && name[0] != p[0]) then false
      else MatchesToken(name[1..], p[1..], caseSensitive)
    else
      (p != [] && p[0] != '/') == (name != [])
  }

  method ComparePointers(name: Text, p: Text, caseSensitive: bool) returns (r: bool)
    ensures r == MatchesToken(name, p, caseSensitive)
  {
    var i, j := 0, 0;
    while i < |name| && j < |p| && p[j] != '/'
      invariant i <= |name| && j <= |p|
      invariant MatchesToken(name[i..], p[j..], caseSensitive) == MatchesToken(name, p, caseSensitive)
      decreases |name| - i
    {
      assert name[i..][1..] == name[i + 1..] && p[j..][1..] == p[j + 1..] && At(p[j..], 1) == At(p, j + 1);
      if p[j] == '~' {
        if (At(p, j + 1) != '0' || name[i] != '~') && (At(p, j + 1) != '1' || name[i] != '/') {
          return false;
        }
        assert p[j..][2..] == p[j + 2..];
        j := j + 1;
      } else if (!caseSensitive && Lower(name[i]) != Lower(p[j])) || (caseSensitive && name[i] != p[j]) {
        return false;
      }
      i, j := i + 1, j + 1;
    }
    r := (j < |p| && p[j] != '/') == (i < |name|);
  }

  /** Two keys that the chosen way of matching does not tell apart. */
  predicate SameKey(a: Text, b: Text, caseSensitive: bool) {
    Fold(a, caseSensitive) == Fold(b, caseSensitive)
  }

  /** The same character, or the capital and the small form of one of the 26 letters. */
  predicate SameLetter(x: byte, y: byte) {
    || x == y
    || (65 <= x as int <= 90 && y as int == x as int + 32)
    || (65 <= y as int <= 90 && x as int == y as int + 32)
  }

  /** Which keys those are. */
  lemma SameKeyMeans(a: Text, b: Text)
    ensures SameKey(a, b, true) <==> a == b
    ensures SameKey(a, b, false) <==> |a| == |b| && forall i :: 0 <= i < |a| ==> SameLetter(a[i], b[i])
  {
    var x, y := LowerText(a), LowerText(b);
    if |a| == |b| {
      assert forall i :: 0 <= i < |a| ==> (x[i] == y[i] <==> SameLetter(a[i], b[i]));
      assert x == y <==> forall i :: 0 <= i < |x| ==> x[i] == y[i];
    }
  }

  lemma SameKeyCons(a: Text, b: Text, caseSensitive: bool)
    requires a != [] && b != []
    ensures SameKey(a, b, caseSensitive)
       <==> && (if caseSensitive then a[0] == b[0] else Lower(a[0]) == Lower(b[0]))
            && SameKey(a[1..], b[1..], caseSensitive)
  {
    var x, y := Fold(a, caseSensitive), Fold(b, caseSensitive);
    assert x[1..] == Fold(a[1..], caseSensitive) && y[1..] == Fold(b[1..], caseSensitive);
    assert x == [x[0]] + x[1..] && y == [y[0]] + y[1..];
  }

  /** An escaped token names exactly the keys that equal its key. */
  lemma {:induction false} EscapedTokenMatches(name: Text, key: Text, rest: Text, caseSensitive: bool)
    requires IsRest(rest)
    ensures MatchesToken(name, Escape(key) + rest, caseSensitive) == SameKey(name, key, caseSensitive)
    decreases |name| + |key|
  {
    var p := Escape(key) + rest;
    if key == [] {
      assert p == rest;
      assert |Fold(name, caseSensitive)| == |name|;
    } else {
      assert p == EscapeByte(key[0]) + (Escape(key[1..]) + rest);
      if name == [] {
        assert |Fold(key, caseSensitive)| == |key|;
      } else {
        SameKeyCons(name, key, caseSensitive);
        assert p[|EscapeByte(key[0])|..] == Escape(key[1..]) + rest;
        EscapedTokenMatches(name[1..], key[1..], rest, caseSensitive);
      }
    }
  }

  // ---------------------------------------------------------------------------------------------
  // Array indices
  // ---------------------------------------------------------------------------------------------

  /** The loop of `decode_array_index_from_pointer`, which tests the upper bound on the first character only. */
  function IndexLoop(p: Text, position: nat, parsed: nat): (nat, nat)
    requires position <= |p|
    decreases |p| - position
  {
    if At(p, position) >= '0' && At(p, 0) <= '9' then
      IndexLoop(p, position + 1, 10 * parsed + (At(p, position) as int - '0' as int))
    else
      (position, parsed)
  }

  /** `decode_array_index_from_pointer`. */
  function DecodeIndex(p: Text): Option<nat> {
    if At(p, 0) == '0' && At(p, 1) != '\0' && At(p, 1) != '/' then None else
    var (position, parsed) := IndexLoop(p, 0, 0);
    if At(p, position) != '\0' && At(p, position) != '/' then None else Some(parsed)
  }

  method DecodeArrayIndexFromPointer(p: Text) returns (r: Option<nat>)
    ensures r == DecodeIndex(p)
  {
    if At(p, 0) == '0' && At(p, 1) != '\0' && At(p, 1) != '/' {
      return None;
    }
    var parsed_index: nat, position: nat := 0, 0;
    while At(p, position) >= '0' && At(p, 0) <= '9'
      invariant position <= |p| && IndexLoop(p, position, parsed_index) == IndexLoop(p, 0, 0)
      decreases |p| - position
    {
      parsed_index := 10 * parsed_index + (At(p, position) as int - '0' as int);
      position := position + 1;
    }
    r := if At(p, position) != '\0' && At(p, position) != '/' then None else Some(parsed_index);
  }

  /** An index as section 4 of RFC 6901 writes it: digits without a leading zero. */
  predicate IsIndex(t: Text) {
    t != [] && AllDigits(t) && (t[0] == '0' ==> |t| == 1)
  }

  lemma {:induction false} IndexLoopDigits(p: Text, k: nat, t: Text, rest: Text)
    requires p == t + rest && IsRest(rest) && t != [] && AllDigits(t) && k <= |t|
    ensures IndexLoop(p, k, DigitsValue(t[..k])) == (|t|, DigitsValue(t))
    decreases |t| - k
  {
    if k < |t| {
      assert t[..k + 1][..k] == t[..k];
      IndexLoopDigits(p, k + 1, t, rest);
    } else {
      assert t[..k] == t;
      assert At(p, k) == if rest == [] then '\0' else '/';
    }
  }

  /** Proper indices are decoded to the number they denote. */
  lemma IndexIsDecoded(t: Text, rest: Text)
    requires IsIndex(t) && IsRest(rest)
    ensures DecodeIndex(t + rest) == Some(DigitsValue(t))
  {
    assert t[..0] == [];
    IndexLoopDigits(t + rest, 0, t, rest);
  }

  lemma {:induction false} IndexLoopStops(t: Text, k: nat, parsed: nat)
    requires NulFree(t) && '/' !in t && t != [] && t[0] <= '9' && k <= |t|
    ensures var (position, _) := IndexLoop(t, k, parsed);
            && position <= |t| && At(t, position) != '/'
            && (At(t, position) == '\0' <==> forall i :: k <= i < |t| ==> t[i] >= '0')
    decreases |t| - k
  {
    if k < |t| {
      assert t[k] in t;
    }
    if k < |t| && t[k] >= '0' {
      IndexLoopStops(t, k + 1, 10 * parsed + (t[k] as int - '0' as int));
    }
  }

  /** Which tokens the code takes for an index: beside the proper ones, the empty token, and a digit 1 to 9 followed by
      characters from '0' upwards of which some are no digits. */
  lemma AcceptedIndices(t: Text)
    requires NulFree(t) && '/' !in t
    ensures DecodeIndex(t).Some?
       <==> t == [] || t == "0" || ('1' <= t[0] <= '9' && forall i :: 0 <= i < |t| ==> t[i] >= '0')
  {
    if t != [] && t[0] <= '9' {
      IndexLoopStops(t, 0, 0);
      if |t| > 1 {
        assert t[1] in t;
      }
    }
    if t != [] {
      assert t[0] in t;
    }
  }

  /** A token that RFC 6901 does not allow for an array is taken for the index 59. */
  lemma LetterAsIndex()
    ensures !IsIndex("1a") && DecodeIndex("1a") == Some(59)
  {
    assert IndexLoop("1a", 2, 59) == (2, 59);
    assert IndexLoop("1a", 1, 1) == IndexLoop("1a", 2, 59);
  }

  lemma DecimalIsIndex(n: nat)
    ensures IsIndex(Decimal(n)) && DigitsValue(Decimal(n)) == n && '/' !in Decimal(n)
    ensures Escape(Decimal(n)) == Decimal(n)
  {
    DecimalRoundTrip(n);
    EscapePlain(Decimal(n));
  }

  // ---------------------------------------------------------------------------------------------
  // From a pointer to a node
  // ---------------------------------------------------------------------------------------------

  /** The first member, from number `i` on, whose key the token in front of `p` names. */
  function FindMember(ms: seq<Keyed<Value>>, i: nat, p: Text, caseSensitive: bool): (r: Option<nat>)
    requires i <= |ms|
    ensures r.Some? ==> i <= r.value < |ms|
    decreases |ms| - i
  {
    if i == |ms| then None
    else if MatchesToken(ms[i].key, p, caseSensitive) then Some(i)
    else FindMember(ms, i + 1, p, caseSensitive)
  }

  /** One step of `get_item_from_pointer`, behind the slash: the child that the token names. */
  function Step(v: Value, p: Text, caseSensitive: bool): (r: Option<nat>)
    ensures r.Some? ==> r.value < Children(v)
  {
    match v
    case Array(items) =>
      (match DecodeIndex(p)
       case None => None
       case Some(index) => if index < |items| then Some(index) else None)
    case Object(ms) => FindMember(ms, 0, p, caseSensitive)
    case _ => None
  }

  /** `get_item_from_pointer`: the position of the node, or none. A text that does not start with a slash names the
      node itself. */
  function Locate(v: Value, p: Text, caseSensitive: bool): (r: Option<Path>)
    ensures r.Some? ==> ValidPath(v, r.value)
    decreases |p|
  {
    if p == [] || p[0] != '/' then Some([]) else
    match Step(v, p[1..], caseSensitive)
    case None => None
    case Some(i) =>
      SkipTokenShortens(p[1..]);
      match Locate(Child(v, i), SkipToken(p[1..]), caseSensitive)
      case None => None
      case Some(path) => Some([i] + path)
  }

  lemma {:induction false} SkipTokenShortens(p: Text)
    ensures |SkipToken(p)| <= |p|
  {
    if p != [] && p[0] != '/' {
      SkipTokenShortens(p[1..]);
    }
  }

  method GetItemFromPointer(root: Value, pointer: Text, caseSensitive: bool) returns (r: Option<Path>)
    ensures r == Locate(root, pointer, caseSensitive)
  {
    var current_element, p: Text, path: Path := root, pointer, [];
    UnderNothing([], Locate(root, pointer, caseSensitive));
    while p != [] && p[0] == '/'
      invariant Locate(root, pointer, caseSensitive) == Under(path, Locate(current_element, p, caseSensitive))
      decreases |p|
    {
      var rest := p[1..];
      var i := 0;
      match current_element {
        case Array(items) =>
          var index := DecodeArrayIndexFromPointer(rest);
          if index.None? || index.value >= |items| {
            return None;
          }
          i := index.value;
        case Object(ms) =>
          while i < |ms| && !MatchesToken(ms[i].key, rest, caseSensitive)
            invariant i <= |ms| && FindMember(ms, i, rest, caseSensitive) == FindMember(ms, 0, rest, caseSensitive)
          {
            i := i + 1;
          }
          if i == |ms| {
            return None;
          }
        case _ =>
          return None;
      }
      assert Step(current_element, rest, caseSensitive) == Some(i);
      SkipTokenShortens(rest);
      UnderTwice(path, i, Locate(Child(current_element, i), SkipToken(rest), caseSensitive));
      current_element, p, path := Child(current_element, i), SkipToken(rest), path + [i];
    }
    r := Some(path);
    UnderNothing(path, r);
  }

  lemma UnderNothing(path: Path, r: Option<Path>)
    ensures Under([], r) == r && Under(path, Some([])) == Some(path)
  {
    assert path + [] == path;
    if r.Some? {
      assert [] + r.value == r.value;
    }
  }

  function Under(path: Path, r: Option<Path>): Option<Path> {
    if r.Some? then Some(path + r.value) else None
  }

  lemma UnderTwice(path: Path, i: nat, r: Option<Path>)
    ensures Under(path, Under([i], r)) == Under(path + [i], r)
  {
    if r.Some? {
      assert path + ([i] + r.value) == path + [i] + r.value;
    }
  }

  // ---------------------------------------------------------------------------------------------
  // From a node to its pointer
  // ---------------------------------------------------------------------------------------------

  /** The token of child number `i`. */
  function TokenOf(v: Value, i: nat): (t: Text)
    requires i < Children(v)
    ensures '/' !in t
  {
    match v
    case Array(_) => DecimalIsIndex(i); Decimal(i)
    case Object(ms) => Escape(ms[i].key)
  }

  /** `cJSONUtils_FindPointerFromObjectTo`, from the node at `here`. */
  function FindPointer(v: Value, here: Path, target: Path): Option<Text>
    decreases v, 1, 0
  {
    if here == target then Some([]) else FindBelow(v, 0, here, target)
  }

  function FindBelow(v: Value, i: nat, here: Path, target: Path): Option<Text>
    requires i <= Children(v)
    decreases v, 0, Children(v) - i
  {
    if i == Children(v) then None else
    match FindPointer(Child(v, i), here + [i], target)
    case Some(t) => Some("/" + TokenOf(v, i) + t)
    case None => FindBelow(v, i + 1, here, target)
  }

  method FindPointerFromObjectTo(current: Value, here: Path, target: Path) returns (r: Option<Text>)
    ensures r == FindPointer(current, here, target)
    decreases current
  {
    if here == target {
      return Some([]);
    }
    var child_index := 0;
    while child_index < Children(current)
      invariant child_index <= Children(current)
      invariant FindBelow(current, child_index, here, target) == FindBelow(current, 0, here, target)
    {
      var target_pointer := FindPointerFromObjectTo(Child(current, child_index), here + [child_index], target);
      if target_pointer.Some? {
        return Some("/" + TokenOf(current, child_index) + target_pointer.value);
      }
      child_index := child_index + 1;
    }
    r := None;
  }

  /** The pointer of a position, written down directly. */
  function PointerTo(v: Value, path: Path): (p: Text)
    requires ValidPath(v, path)
    ensures IsRest(p)
  {
    if path == [] then [] else "/" + TokenOf(v, path[0]) + PointerTo(Child(v, path[0]), path[1..])
  }

  /** The search finds the pointer of a node exactly if the node is in the tree. */
  lemma {:induction false} SearchFinds(v: Value, here: Path, target: Path)
    ensures FindPointer(v, here, target)
         == if here <= target && ValidPath(v, target[|here|..]) then Some(PointerTo(v, target[|here|..])) else None
    decreases v, 1, 0
  {
    SearchBelowFinds(v, 0, here, target);
  }

  lemma {:induction false} SearchBelowFinds(v: Value, i: nat, here: Path, target: Path)
    requires i <= Children(v)
    ensures here != target ==>
              (FindBelow(v, i, here, target)
               == if here < target && target[|here|] >= i && ValidPath(v, target[|here|..])
                  then Some(PointerTo(v, target[|here|..])) else None)
    decreases v, 0, Children(v) - i
  {
    if i < Children(v) {
      SearchFinds(Child(v, i), here + [i], target);
      SearchBelowFinds(v, i + 1, here, target);
      if here < target {
        assert target[|here|..][1..] == target[|here| + 1..];
        assert here + [i] <= target <==> target[|here|] == i;
      }
    }
  }

  /** A node's pointer leads back to that very node, when keys are matched case-sensitively. */
  lemma {:induction false} PointerLeadsBack(v: Value, path: Path)
    requires Proper(v) && ValidPath(v, path)
    ensures Locate(v, PointerTo(v, path), true) == Some(path)
    decreases path
  {
    hide TokenOf, Step, Escape;
    if path != [] {
      var i, c := path[0], Child(v, path[0]);
      var t, rest := TokenOf(v, i), PointerTo(c, path[1..]);
      StepByToken(v, i, rest);
      LocateStep(v, i, t, rest, true);
      PointerLeadsBack(c, path[1..]);
      assert [i] + path[1..] == path;
    }
  }

  lemma LocateStep(v: Value, i: nat, t: Text, rest: Text, caseSensitive: bool)
    requires i < Children(v) && '/' !in t && IsRest(rest) && Step(v, t + rest, caseSensitive) == Some(i)
    ensures Locate(v, "/" + t + rest, caseSensitive) == Under([i], Locate(Child(v, i), rest, caseSensitive))
  {
    hide Step;
    var p := "/" + t + rest;
    assert p[1..] == t + rest;
    SkipWholeToken(t, rest);
  }

  lemma StepByToken(v: Value, i: nat, rest: Text)
    requires Proper(v) && i < Children(v) && IsRest(rest)
    ensures Step(v, TokenOf(v, i) + rest, true) == Some(i)
  {
    match v {
      case Array(items) =>
        DecimalIsIndex(i);
        IndexIsDecoded(Decimal(i), rest);
      case Object(ms) =>
        MemberByToken(ms, 0, i, rest);
    }
  }

  lemma {:induction false} MemberByToken(ms: seq<Keyed<Value>>, k: nat, i: nat, rest: Text)
    requires DistinctKeys(ms) && k <= i < |ms| && IsRest(rest)
    ensures FindMember(ms, k, Escape(ms[i].key) + rest, true) == Some(i)
    decreases i - k
  {
    EscapedTokenMatches(ms[k].key, ms[i].key, rest, true);
    if k < i {
      MemberByToken(ms, k + 1, i, rest);
    }
  }

  /** The pointer found from the root to a node resolves, case-sensitively, to that very node; a node outside the tree
      has no pointer. Keys may contain `~` and `/`. */
  lemma PointerRoundTrip(root: Value, target: Path)
    requires Proper(root)
    ensures ValidPath(root, target) ==>
              && FindPointer(root, [], target).Some?
              && Locate(root, FindPointer(root, [], target).value, true) == Some(target)
    ensures !ValidPath(root, target) ==> FindPointer(root, [], target) == None
  {
    SearchFinds(root, [], target);
    assert target[0..] == target;
    if ValidPath(root, target) {
      PointerLeadsBack(root, target);
    }
  }
}
