/** `decode_pointer_inplace` of cJSON_Utils.c, and for which keys it really undoes the escaping. */
module PointerDecode {
  import opened Bytes
  import opened JsonPointer

  /** The buffer that the loop of `decode_pointer_inplace` leaves, reading at `i` and writing at `j`. Ordinary
      characters are stepped over but not copied. */
  function DecodeLoop(b: Text, i: nat, j: nat): (r: Text)
    requires j <= i < |b|
    ensures |r| == |b|
    decreases |b| - i
  {
    if b[i] == '\0' then b[j := '\0']
    else if b[i] == '~' then
      if At(b, i + 1) == '0' then (if i + 2 < |b| then DecodeLoop(b[j := '~'], i + 2, j + 1) else b[j := '~'])
      else if At(b, i + 1) == '1' then
        (if i + 2 < |b| then DecodeLoop(b[j + 1 := '/'], i + 2, j + 1) else b[j + 1 := '/'])
      else b
    else if i + 1 < |b| then DecodeLoop(b, i + 1, j + 1)
    else b
  }

  function DecodeInPlace(s: Text): Text {
    CString(DecodeLoop(s + "\0", 0, 0))
  }

  method DecodePointerInPlace(buffer: array<byte>)
    requires buffer.Length > 0 && buffer[buffer.Length - 1] == '\0'
    modifies buffer
    ensures buffer[..] == DecodeLoop(old(buffer[..]), 0, 0)
  {
    var i, j := 0, 0;
    while buffer[i] != '\0'
      invariant 0 <= j <= i < buffer.Length && buffer[buffer.Length - 1] == '\0'
      invariant DecodeLoop(buffer[..], i, j) == DecodeLoop(old(buffer[..]), 0, 0)
      decreases buffer.Length - i
    {
      ghost var before: Text := buffer[..];
      if buffer[i] == '~' {
        if buffer[i + 1] == '0' {
          buffer[j] := '~';
          assert buffer[..] == before[j := '~'];
        } else if buffer[i + 1] == '1' {
          buffer[j + 1] := '/';
          assert buffer[..] == before[j + 1 := '/'];
        } else {
          return;
        }
        i := i + 1;
      }
      i, j := i + 1, j + 1;
    }
    ghost var before: Text := buffer[..];
    buffer[j] := '\0';
    assert buffer[..] == before[j := '\0'];
  }

  /** The keys whose token the code decodes to the key itself: no slash, and behind the first tilde every other
      character happens to stand where the escaped token has the same one. */
  predicate Recoverable(t: Text) {
    '/' !in t && forall j :: 0 <= j < |t| && t[j] != '~' ==> Escape(t)[j] == t[j]
  }

  lemma PlainIsRecoverable(t: Text)
    requires '/' !in t && '~' !in t
    ensures Recoverable(t)
  {
    EscapePlain(t);
  }

  /** One round of the loop on an escaped key: what it writes, and where it goes on. */
  lemma DecodeStep(b: Text, i: nat, j: nat, t: Text) returns (b': Text, i': nat)
    requires j <= i < |b| && NulFree(t) && t != [] && Ready(b, i, t)
    ensures b' == (if t[0] == '~' then b[j := '~'] else if t[0] == '/' then b[j + 1 := '/'] else b)
    ensures j + 1 <= i' < |b'| && NulFree(t[1..]) && Ready(b', i', t[1..])
    ensures DecodeLoop(b, i, j) == DecodeLoop(b', i', j + 1)
  {
    hide DecodeLoop, Escape;
    var e := EscapeByte(t[0]);
    ReadyHead(b, i, t);
    i' := i + |e|;
    b' := if t[0] == '~' then b[j := '~'] else if t[0] == '/' then b[j + 1 := '/'] else b;
    assert b'[i'..] == b[i'..];
    LoopStep(b, i, j, t[0]);
  }

  lemma LoopStep(b: Text, i: nat, j: nat, x: byte)
    requires x != '\0' && j <= i && i + |EscapeByte(x)| < |b| && b[i] == EscapeByte(x)[0]
    requires |EscapeByte(x)| > 1 ==> b[i + 1] == EscapeByte(x)[1]
    ensures DecodeLoop(b, i, j)
         == DecodeLoop(if x == '~' then b[j := '~'] else if x == '/' then b[j + 1 := '/'] else b, i + |EscapeByte(x)|,
                       j + 1)
  {}

  /** The token in front, and what is left behind it. */
  lemma ReadyHead(b: Text, i: nat, t: Text)
    requires NulFree(t) && t != [] && Ready(b, i, t)
    ensures var e := EscapeByte(t[0]);
            && i + |e| < |b| && Ready(b, i + |e|, t[1..]) && NulFree(t[1..])
            && b[i] == e[0] && (|e| > 1 ==> b[i + 1] == e[1])
  {
    var e := EscapeByte(t[0]);
    var s := b[i..];
    assert s == e + (Escape(t[1..]) + "\0");
    assert b[i + |e|..] == s[|e|..];
    assert b[i] == s[0] && (|e| > 1 ==> b[i + 1] == s[1]);
  }

  /** At `i` the buffer holds the escaped key and its terminator. */
  predicate Ready(b: Text, i: nat, t: Text) {
    i <= |b| && b[i..] == Escape(t) + "\0"
  }

  /** From `j` on the result `r` has the key, apart from characters that were left as they were in `b`. */
  predicate DecodedAt(r: Text, b: Text, j: nat, t: Text) {
    && |r| == |b| && j + |t| < |r| && r[j + |t|] == '\0'
    && (forall k :: 0 <= k < |t| ==> r[j + k] == if t[k] == '~' then '~' else b[j + k])
  }

  lemma {:induction false} DecodeWithoutSlash(b: Text, i: nat, j: nat, t: Text)
    requires j <= i < |b| && NulFree(t) && '/' !in t && Ready(b, i, t)
    ensures DecodedAt(DecodeLoop(b, i, j), b, j, t)
    decreases |t|
  {
    if t == [] {
      assert b[i] == b[i..][0];
    } else {
      hide DecodeLoop, Ready, Escape, DecodedAt, NulFree;
      assert t[0] in t && forall x :: x in t[1..] ==> x in t;
      var b', i' := DecodeStep(b, i, j, t);
      DecodeWithoutSlash(b', i', j + 1, t[1..]);
      DecodeKeepsPrefix(b', i', j + 1);
      DecodedOneMore(DecodeLoop(b', i', j + 1), b, b', j, t);
    }
  }

  lemma DecodedOneMore(r: Text, b: Text, b': Text, j: nat, t: Text)
    requires t != [] && j < |b| && b' == (if t[0] == '~' then b[j := '~'] else b)
    requires DecodedAt(r, b', j + 1, t[1..]) && r[j] == b'[j]
    ensures DecodedAt(r, b, j, t)
  {
    forall k | 0 <= k < |t| ensures r[j + k] == if t[k] == '~' then '~' else b[j + k] {
      if k > 0 {
        assert r[j + 1 + (k - 1)] == if t[1..][k - 1] == '~' then '~' else b'[j + 1 + (k - 1)];
      }
    }
  }

  lemma {:induction false} DecodeWithSlash(b: Text, i: nat, j: nat, t: Text) returns (f: nat)
    requires j <= i < |b| && NulFree(t) && '/' in t && Ready(b, i, t)
    requires forall m :: j <= m < |b| ==> b[m] != '/'
    ensures f < |t| && t[f] == '/' && j + f < |b| && DecodeLoop(b, i, j)[j + f] != '/'
    decreases |t|
  {
    var b', i' := DecodeStep(b, i, j, t);
    hide DecodeLoop, Ready, Escape;
    if t[0] == '/' {
      f := 0;
      DecodeKeepsPrefix(b', i', j + 1);
    } else {
      f := DecodeWithSlash(b', i', j + 1, t[1..]);
      f := f + 1;
    }
  }

  lemma {:induction false} DecodeKeepsPrefix(b: Text, i: nat, j: nat)
    requires j <= i < |b|
    ensures forall m :: 0 <= m < j ==> DecodeLoop(b, i, j)[m] == b[m]
    decreases |b| - i
  {
    if b[i] == '\0' {
    } else if b[i] == '~' {
      if At(b, i + 1) == '0' && i + 2 < |b| {
        DecodeKeepsPrefix(b[j := '~'], i + 2, j + 1);
      } else if At(b, i + 1) == '1' && i + 2 < |b| {
        DecodeKeepsPrefix(b[j + 1 := '/'], i + 2, j + 1);
      }
    } else if i + 1 < |b| {
      DecodeKeepsPrefix(b, i + 1, j + 1);
    }
  }

  lemma {:induction false} CStringUpTo(s: Text, n: nat)
    requires n < |s| && s[n] == '\0' && NulFree(s[..n])
    ensures CString(s) == s[..n]
    decreases n
  {
    if n > 0 {
      assert s[0] == s[..n][0];
      assert s[1..][..n - 1] == s[..n][1..];
      CStringUpTo(s[1..], n - 1);
      assert s[..n] == [s[0]] + s[1..][..n - 1];
    }
  }

  lemma {:induction false} EscapeNulFree(t: Text)
    requires NulFree(t)
    ensures NulFree(Escape(t))
  {
    if t != [] {
      EscapeNulFree(t[1..]);
    }
  }

  /** Decoding in place undoes the escaping for exactly the recoverable keys. */
  lemma DecodeUndoesEscape(t: Text)
    requires NulFree(t)
    ensures DecodeInPlace(Escape(t)) == t <==> Recoverable(t)
  {
    var e := Escape(t);
    var b := e + "\0";
    var r := DecodeLoop(b, 0, 0);
    EscapeNulFree(t);
    assert b[0..] == b;
    hide DecodeLoop, Escape;
    if '/' in t {
      forall m | 0 <= m < |b| ensures b[m] != '/' {
        assert b[m] == '\0' || b[m] in e;
      }
      var f := DecodeWithSlash(b, 0, 0, t);
      CStringPrefix(r);
      assert CString(r) != t;
    } else {
      DecodeWithoutSlash(b, 0, 0, t);
      forall k | 0 <= k < |t| ensures r[k] == if t[k] == '~' then '~' else e[k] {
        assert r[0 + k] == if t[k] == '~' then '~' else b[0 + k];
      }
      CStringUpTo(r, |t|);
      if Recoverable(t) {
        assert r[..|t|] == t;
      } else {
        var j :| 0 <= j < |t| && t[j] != '~' && e[j] != t[j];
        assert r[..|t|][j] == e[j];
      }
    }
  }

  lemma {:induction false} CStringPrefix(s: Text)
    ensures CString(s) <= s
  {
    if s != [] && s[0] != '\0' {
      CStringPrefix(s[1..]);
      assert s == [s[0]] + s[1..];
    }
  }

  /** A slash inside a key is lost: the member is added under another name. */
  lemma SlashIsLost()
    ensures DecodeInPlace(Escape("a/b")) != "a/b"
  {
    assert "a/b"[1] in "a/b";
    DecodeUndoesEscape("a/b");
  }
}
