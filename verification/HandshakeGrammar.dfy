/** What a master must send for the handshake to succeed, and nothing else will do. */
module HandshakeGrammar {
  import opened Bytes
  import opened Text
  import opened Handshake
  import Grammar

  /** s is one line and then rest. */
  ghost predicate Line(s: bytes, rest: bytes) {
    exists l: bytes :: s == l + "\r\n" + rest && !HasCrlf(l)
  }

  /** s is a text line that starts with +FULLRESYNC, and then rest. */
  ghost predicate Resync(s: bytes, rest: bytes) {
    exists l: bytes :: s == l + "\r\n" + rest && !HasCrlf(l) && "+FULLRESYNC" <= l && Utf8(l + "\r\n")
  }

  function Packed(t: bytes, payload: bytes, rest: bytes): bytes {
    "$" + t + "\r\n" + payload + rest
  }

  /** s is a snapshot, announced with its length, and then rest. */
  ghost predicate Snapshot(s: bytes, rest: bytes) {
    exists t: bytes, payload: bytes ::
      s == Packed(t, payload, rest) && Numeral(t, |payload|) && t != [] && t[0] != '-' && |payload| <= U64_MAX
  }

  lemma LineAt(s: bytes, l: bytes, rest: bytes)
    requires s == l + "\r\n" + rest && !HasCrlf(l)
    ensures FindCrlf(s, 0) == |l| < |s| && s[..|l|] == l && s[|l| + 2..] == rest && s[..|l| + 2] == l + "\r\n"
  {
    LineOf(l, rest);
  }

  lemma LineIn(s: bytes)
    requires FindCrlf(s, 0) < |s|
    ensures var i := FindCrlf(s, 0);
            && s == s[..i] + "\r\n" + s[i + 2..] && !HasCrlf(s[..i]) && s[..i + 2] == s[..i] + "\r\n"
  {
    var i := FindCrlf(s, 0);
    forall j ensures !CrlfAt(s[..i], j) {
      assert CrlfAt(s[..i], j) ==> CrlfAt(s, j);
    }
    CutAtLine(s, i);
  }

  lemma CutAtLine(s: bytes, i: nat)
    requires CrlfAt(s, i)
    ensures s == s[..i] + "\r\n" + s[i + 2..] && s[..i + 2] == s[..i] + "\r\n"
  {
  }

  lemma LineExactly(s: bytes, rest: bytes)
    ensures AfterLine(s) == Some(rest) <==> Line(s, rest)
  {
    hide FindCrlf;
    if FindCrlf(s, 0) < |s| {
      LineIn(s);
    }
    if l: bytes :| s == l + "\r\n" + rest && !HasCrlf(l) {
      LineAt(s, l, rest);
    }
  }

  lemma ResyncExactly(s: bytes, rest: bytes)
    ensures AfterFullResync(s) == Some(rest) <==> Resync(s, rest)
  {
    hide FindCrlf, Utf8;
    if AfterFullResync(s) == Some(rest) {
      LineIn(s);
      var l := s[..FindCrlf(s, 0)];
      StartsBefore("+FULLRESYNC", l);
    }
    if l: bytes :| s == l + "\r\n" + rest && !HasCrlf(l) && "+FULLRESYNC" <= l && Utf8(l + "\r\n") {
      LineAt(s, l, rest);
    }
  }

  lemma ReachesCrlf(w: bytes, l: bytes)
    requires w <= l + "\r\n" && |w| > |l|
    ensures '\r' in w
  {
    assert w[|l|] == (l + "\r\n")[|l|];
  }

  lemma StartsBefore(w: bytes, l: bytes)
    requires '\r' !in w && w <= l + "\r\n"
    ensures w <= l
  {
    if |w| > |l| {
      ReachesCrlf(w, l);
      assert false;
    }
    assert l[..|w|] == (l + "\r\n")[..|w|];
  }

  lemma SnapshotFound(s: bytes, rest: bytes)
    requires AfterRdb(s) == Some(rest)
    ensures Snapshot(s, rest)
  {
    hide FindCrlf, Utf8, ParseUnsigned, Numeral, Packed;
    var i := FindCrlf(s, 0);
    LineIn(s);
    var t := s[1..i];
    var n := ParseUnsigned(t, U64_MAX).value;
    UnsignedExactly(t, n, U64_MAX);
    var payload := s[i + 2..i + 2 + n];
    Pieces(s, i, t, payload, rest);
  }

  lemma Pieces(s: bytes, i: nat, t: bytes, payload: bytes, rest: bytes)
    requires 0 < i <= |s| - 2 && s == s[..i] + "\r\n" + s[i + 2..] && s[0] == '$' && t == s[1..i]
    requires |payload| <= |s| - i - 2 && payload == s[i + 2..i + 2 + |payload|] && rest == s[i + 2 + |payload|..]
    ensures s == Packed(t, payload, rest)
  {
    assert s[..i] == "$" + t;
    assert s[i + 2..] == payload + rest;
    Regroup(s[..i] + "\r\n", payload, rest);
  }

  lemma Regroup(a: bytes, b: bytes, c: bytes)
    ensures a + (b + c) == a + b + c
  {
  }

  lemma SnapshotOnly(s: bytes, rest: bytes)
    requires Snapshot(s, rest)
    ensures AfterRdb(s) == Some(rest)
  {
    hide FindCrlf, Utf8, ParseUnsigned, Numeral, Packed;
    var t: bytes, payload: bytes :|
      s == Packed(t, payload, rest) && Numeral(t, |payload|) && t != [] && t[0] != '-' && |payload| <= U64_MAX;
    Grammar.NumeralPlain(t, |payload|);
    UnsignedExactly(t, |payload|, U64_MAX);
    Unpacked(t, payload, rest);
  }

  lemma Unpacked(t: bytes, payload: bytes, rest: bytes)
    requires !HasCrlf(t)
    ensures var s, i := Packed(t, payload, rest), |t| + 1;
            && FindCrlf(s, 0) == i && |s| == i + 2 + |payload| + |rest|
            && s[0] == '$' && s[1..i] == t && s[i + 2 + |payload|..] == rest
  {
    hide FindCrlf;
    var s, l, tail := Packed(t, payload, rest), "$" + t, payload + rest;
    Regroup("$" + t + "\r\n", payload, rest);
    Behind('$', t);
    LineAt(s, l, tail);
    assert s[1..|l|] == s[..|l|][1..] == t;
    assert s[|l| + 2 + |payload|..] == s[|l| + 2..][|payload|..] == rest;
  }

  lemma Behind(p: byte, t: bytes)
    requires p != '\r' && !HasCrlf(t)
    ensures !HasCrlf([p] + t)
  {
    forall j ensures !CrlfAt([p] + t, j) {
      assert CrlfAt([p] + t, j) ==> CrlfAt(t, j - 1);
    }
  }

  /** The replies in order, each up to its last byte. */
  ghost predicate Replies(s: bytes, auth: bool, rest: bytes) {
    exists a: bytes, b: bytes, c: bytes, d: bytes, e: bytes ::
      && Line(s, a)
      && (if auth then Line(a, b) else a == b)
      && Line(b, c) && Line(c, d)
      && Resync(d, e)
      && Snapshot(e, rest)
  }

  /** The handshake succeeds exactly on a line for PING, one for AUTH if a password
      is set, two for REPLCONF, a FULLRESYNC line and a snapshot, and leaves exactly
      what follows. */
  lemma HandshakeExactly(s: bytes, auth: bool, rest: bytes)
    ensures AfterHandshake(s, auth) == Some(rest) <==> Replies(s, auth, rest)
  {
    hide AfterLine, AfterFullResync, AfterRdb, Line, Resync, Snapshot;
    forall x, y ensures AfterLine(x) == Some(y) <==> Line(x, y) {
      LineExactly(x, y);
    }
    forall x, y ensures AfterFullResync(x) == Some(y) <==> Resync(x, y) {
      ResyncExactly(x, y);
    }
    forall x, y ensures AfterRdb(x) == Some(y) <==> Snapshot(x, y) {
      if AfterRdb(x) == Some(y) {
        SnapshotFound(x, y);
      }
      if Snapshot(x, y) {
        SnapshotOnly(x, y);
      }
    }
    if AfterHandshake(s, auth) == Some(rest) {
      var a := AfterLine(s).value;
      var b := if auth then AfterLine(a).value else a;
      var c := AfterLine(b).value;
      var d := AfterLine(c).value;
      var e := AfterFullResync(d).value;
      assert Line(s, a) && (if auth then Line(a, b) else a == b) && Line(b, c) && Line(c, d) && Resync(d, e);
    }
  }
}
