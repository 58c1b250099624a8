/** The wire format as a grammar, and the parser against it: it finds a frame exactly
    where the grammar has one, and reports an error exactly where the bytes seen so
    far can no longer become one. */
module Grammar {
  import opened Bytes
  import opened Resp
  import opened Text
  import RoundTrip

  /** A line that announces i, and what follows it. */
  ghost predicate Announces(raw: bytes, p: byte, i: int, rest: bytes) {
    exists t :: raw == [p] + t + "\r\n" + rest && Numeral(t, i) && I64_MIN <= i <= I64_MAX
  }

  /** raw is a way to write v. */
  ghost predicate Reads(v: Value, raw: bytes)
    decreases v, 1
  {
    match v
    case SimpleString(s) => raw == "+" + s + "\r\n" && !HasCrlf(s) && Utf8(s)
    case Error(s) => raw == "-" + s + "\r\n" && !HasCrlf(s) && Utf8(s)
    case Integer(i) => Announces(raw, ':', i, [])
    case NullBulk => Announces(raw, '$', -1, [])
    case BulkString(data) => Announces(raw, '$', |data|, data + "\r\n")
    case NullArray => Announces(raw, '*', -1, [])
    case Array(items) => exists rest :: Announces(raw, '*', |items|, rest) && ReadsAll(items, rest)
  }

  ghost predicate ReadsAll(vs: seq<Value>, raw: bytes)
    decreases vs, 0
  {
    if vs == [] then raw == []
    else exists n :: 0 <= n <= |raw| && Reads(vs[0], raw[..n]) && ReadsAll(vs[1..], raw[n..])
  }

  // ------------------------------------------------------------------- lines

  /** The first line of src, without prefix and CRLF, and what follows it. */
  ghost predicate LineIs(src: bytes, t: bytes, rest: bytes) {
    src != [] && src == [src[0]] + t + "\r\n" + rest && !HasCrlf(t)
  }

  lemma LineFound(src: bytes)
    requires src != [] && src[0] != '\r' && FirstLine(src).Some?
    ensures var l := FirstLine(src).value; LineIs(src, l.payload, src[l.len..]) && l.len == |l.payload| + 3
  {
    var i := FindCrlf(src, 0);
    var t := src[1..i];
    assert src == [src[0]] + t + "\r\n" + src[i + 2..];
    if j :| CrlfAt(t, j) {
      assert CrlfAt(src, j + 1);
      assert false;
    }
  }

  lemma LineOnly(src: bytes, t: bytes, rest: bytes)
    requires LineIs(src, t, rest) && src[0] != '\r'
    ensures FirstLine(src) == Some(Line(t, |t| + 3)) && src[|t| + 3..] == rest
  {
    RoundTrip.FirstLineOf(src[0], t, rest);
  }

  lemma NumeralPlain(t: bytes, i: int)
    requires Numeral(t, i)
    ensures Utf8(t) && !HasCrlf(t)
  {
    assert Ascii(t) && '\r' !in t by {
      forall k | 0 <= k < |t| ensures t[k] <= '\U{7F}' && t[k] != '\r' {
        assert k > 0 ==> t[1..][k - 1] == t[k];
      }
    }
    Utf8AsciiPrefix(t, []);
    assert t + [] == t;
  }

  /** The number of a header is what its line announces. */
  lemma HeaderFound(src: bytes)
    requires src != [] && src[0] != '\r' && ParseHeader(src).Number?
    ensures var h := ParseHeader(src); Announces(src, src[0], h.n, src[h.len..])
    ensures FirstLine(src).Some? && Numeral(FirstLine(src).value.payload, ParseHeader(src).n)
  {
    hide Utf8, Numeral;
    LineFound(src);
    IntegerExactly(FirstLine(src).value.payload, ParseHeader(src).n);
  }

  lemma HeaderOnly(p: byte, i: int, raw: bytes, rest: bytes)
    requires p != '\r' && Announces(raw, p, i, rest)
    ensures raw != [] && raw[0] == p && ParseHeader(raw).Number? && ParseHeader(raw).n == i
    ensures |rest| + ParseHeader(raw).len == |raw| && raw[ParseHeader(raw).len..] == rest
  {
    hide Utf8, Numeral;
    var t :| raw == [p] + t + "\r\n" + rest && Numeral(t, i) && I64_MIN <= i <= I64_MAX;
    NumeralPlain(t, i);
    LineOnly(raw, t, rest);
    IntegerExactly(t, i);
  }

  lemma AnnouncesCut(src: bytes, p: byte, i: int, rest: bytes, n: nat)
    requires Announces(src, p, i, rest) && n <= |rest|
    ensures Announces(src[..|src| - |rest| + n], p, i, rest[..n])
  {
    hide Numeral;
    var t :| src == [p] + t + "\r\n" + rest && Numeral(t, i) && I64_MIN <= i <= I64_MAX;
    assert src[..|src| - |rest| + n] == [p] + t + "\r\n" + rest[..n];
  }

  lemma AnnouncesMore(raw: bytes, p: byte, i: int, rest: bytes, more: bytes)
    requires Announces(raw, p, i, rest)
    ensures Announces(raw + more, p, i, rest + more)
  {
    hide Numeral;
    var t :| raw == [p] + t + "\r\n" + rest && Numeral(t, i) && I64_MIN <= i <= I64_MAX;
    assert raw + more == [p] + t + "\r\n" + (rest + more);
  }

  // ------------------------------------------------------- frames are grammatical

  lemma TextIsGrammatical(src: bytes)
    requires src != [] && src[0] in "+-" && ParseText(src).Frame?
    ensures Reads(ParseText(src).value, src[..ParseText(src).consumed])
  {
    hide Utf8;
    LineFound(src);
    var l := FirstLine(src).value;
    assert src[..l.len] == [src[0]] + l.payload + "\r\n";
  }

  lemma BulkIsGrammatical(src: bytes)
    requires src != [] && src[0] == '$' && ParseBulk(src).Frame?
    ensures Reads(ParseBulk(src).value, src[..ParseBulk(src).consumed])
  {
    hide Announces, ParseHeader;
    HeaderFound(src);
    var h := ParseHeader(src);
    var rest := src[h.len..];
    if h.n == -1 {
      AnnouncesCut(src, '$', -1, rest, 0);
      assert rest[..0] == [];
    } else {
      var n := h.n + 2;
      AnnouncesCut(src, '$', h.n, rest, n);
      var data := src[h.len..h.len + h.n];
      assert rest[..n] == data + "\r\n";
    }
  }

  lemma IntegerIsGrammatical(src: bytes)
    requires src != [] && src[0] == ':' && ParseInteger(src).Frame?
    ensures Reads(ParseInteger(src).value, src[..ParseInteger(src).consumed])
  {
    hide Announces, ParseHeader;
    HeaderFound(src);
    var h := ParseHeader(src);
    AnnouncesCut(src, ':', h.n, src[h.len..], 0);
    assert src[h.len..][..0] == [];
  }

  lemma {:induction false} FrameIsGrammatical(src: bytes)
    requires Parse(src).Frame?
    ensures Reads(Parse(src).value, src[..Parse(src).consumed])
    decreases |src|, 1
  {
    hide ParseText, ParseBulk, ParseInteger, ParseHeader, Announces;
    if src[0] in "+-" {
      TextIsGrammatical(src);
    } else if src[0] == ':' {
      IntegerIsGrammatical(src);
    } else if src[0] == '$' {
      BulkIsGrammatical(src);
    } else {
      ArrayIsGrammatical(src);
    }
  }

  lemma {:induction false} ArrayIsGrammatical(src: bytes)
    requires src != [] && src[0] == '*' && ParseArray(src).Frame?
    ensures Reads(ParseArray(src).value, src[..ParseArray(src).consumed])
    decreases |src|, 0
  {
    hide ParseHeader, Announces, ParseItems, Parse, ReadsAll;
    HeaderFound(src);
    var h := ParseHeader(src);
    var rest := src[h.len..];
    if h.n == -1 {
      AnnouncesCut(src, '*', -1, rest, 0);
      assert rest[..0] == [];
    } else {
      ItemsAreGrammatical(rest, h.n);
      var used := ParseItems(rest, h.n).consumed;
      AnnouncesCut(src, '*', h.n, rest, used);
    }
  }

  lemma {:induction false} ItemsAreGrammatical(src: bytes, count: nat)
    requires ParseItems(src, count).Items?
    ensures ReadsAll(ParseItems(src, count).values, src[..ParseItems(src, count).consumed])
    decreases |src|, 2
  {
    hide Parse, Reads;
    if count > 0 {
      var n := Parse(src).consumed;
      FrameIsGrammatical(src);
      ItemsAreGrammatical(src[n..], count - 1);
      var vs, used := ParseItems(src[n..], count - 1).values, ParseItems(src[n..], count - 1).consumed;
      var all, raw := [Parse(src).value] + vs, src[..n + used];
      assert all[1..] == vs && raw[..n] == src[..n] && raw[n..] == src[n..][..used];
    }
  }

  // ------------------------------------------------------- the grammar is parsed

  lemma TextIsParsed(v: Value, raw: bytes, rest: bytes)
    requires (v.SimpleString? || v.Error?) && Reads(v, raw)
    ensures Parse(raw + rest) == Frame(v, |raw|)
  {
    hide Utf8;
    var p: byte := if v.SimpleString? then '+' else '-';
    assert raw + rest == [p] + v.text + "\r\n" + rest;
    RoundTrip.FirstLineOf(p, v.text, rest);
  }

  lemma ScalarIsParsed(v: Value, raw: bytes, rest: bytes)
    requires (v.Integer? || v.NullBulk? || v.NullArray?) && Reads(v, raw)
    ensures Parse(raw + rest) == Frame(v, |raw|)
  {
    hide Announces, ParseHeader, ParseItems, ParseText;
    var p: byte := if v.Integer? then ':' else if v.NullBulk? then '$' else '*';
    var i := if v.Integer? then v.i else -1;
    AnnouncesMore(raw, p, i, [], rest);
    assert [] + rest == rest;
    HeaderOnly(p, i, raw + rest, rest);
  }

  lemma BulkIsParsed(data: bytes, raw: bytes, rest: bytes)
    requires Reads(BulkString(data), raw)
    ensures Parse(raw + rest) == Frame(BulkString(data), |raw|)
  {
    hide Announces, ParseHeader;
    AnnouncesMore(raw, '$', |data|, data + "\r\n", rest);
    var src, tail := raw + rest, data + "\r\n" + rest;
    HeaderOnly('$', |data|, src, tail);
    var len := ParseHeader(src).len;
    assert src[len..len + |data|] == tail[..|data|] == data;
    assert src[len + |data|] == tail[|data|] && src[len + |data| + 1] == tail[|data| + 1];
  }

  lemma {:induction false} GrammarIsParsed(v: Value, raw: bytes, rest: bytes)
    requires Reads(v, raw)
    ensures Parse(raw + rest) == Frame(v, |raw|)
    decreases v, 1
  {
    hide Parse, Announces;
    match v
    case Array(items) =>
      var tail :| Announces(raw, '*', |items|, tail) && ReadsAll(items, tail);
      AnnouncesMore(raw, '*', |items|, tail, rest);
      HeaderOnly('*', |items|, raw + rest, tail + rest);
      AllAreParsed(items, tail, rest);
      ArrayArm(raw + rest, |items|, tail + rest);
    case BulkString(data) => BulkIsParsed(data, raw, rest);
    case SimpleString(_) => TextIsParsed(v, raw, rest);
    case Error(_) => TextIsParsed(v, raw, rest);
    case _ => ScalarIsParsed(v, raw, rest);
  }

  lemma ArrayArm(src: bytes, count: nat, tail: bytes)
    requires src != [] && src[0] == '*' && ParseHeader(src).Number? && ParseHeader(src).n == count
    requires src[ParseHeader(src).len..] == tail && ParseItems(tail, count).Items?
    ensures Parse(src) == Frame(Array(ParseItems(tail, count).values),
                                ParseHeader(src).len + ParseItems(tail, count).consumed)
  {
    hide ParseHeader, ParseItems;
  }

  lemma {:induction false} AllAreParsed(vs: seq<Value>, raw: bytes, rest: bytes)
    requires ReadsAll(vs, raw)
    ensures ParseItems(raw + rest, |vs|) == Items(vs, |raw|)
    decreases vs, 0
  {
    hide Parse, Reads;
    if vs != [] {
      var n :| 0 <= n <= |raw| && Reads(vs[0], raw[..n]) && ReadsAll(vs[1..], raw[n..]);
      var more := raw[n..] + rest;
      assert raw + rest == raw[..n] + more && (raw + rest)[n..] == more;
      GrammarIsParsed(vs[0], raw[..n], more);
      AllAreParsed(vs[1..], raw[n..], rest);
      assert [vs[0]] + vs[1..] == vs;
    }
  }

  /** The parser finds a frame exactly where the grammar has one. */
  lemma ParseExactly(src: bytes, v: Value, n: nat)
    ensures Parse(src) == Frame(v, n) <==> n <= |src| && Reads(v, src[..n])
  {
    hide Parse, Reads;
    if Parse(src) == Frame(v, n) {
      FrameIsGrammatical(src);
    }
    if n <= |src| && Reads(v, src[..n]) {
      GrammarIsParsed(v, src[..n], src[n..]);
      assert src[..n] + src[n..] == src;
    }
  }

  // ------------------------------------------------------------------- errors

  /** The bytes seen so far cannot become a value: the prefix is unknown, or the
      first line is complete and wrong, or something behind it is. */
  ghost predicate Malformed(src: bytes)
    decreases |src|, 1
  {
    src != [] &&
    if src[0] !in "+-:$*" then true
    else exists t, rest :: LineIs(src, t, rest) && |rest| < |src| && WrongLine(src[0], t, rest)
  }

  ghost predicate WrongLine(p: byte, t: bytes, rest: bytes)
    decreases |rest|, 3
  {
    if p in "+-" then !Utf8(t)
    else if !Numbered(t) then true
    else exists i :: Numeral(t, i) && I64_MIN <= i <= I64_MAX && WrongBehind(p, i, rest)
  }

  ghost predicate Numbered(t: bytes) {
    exists i :: Numeral(t, i) && I64_MIN <= i <= I64_MAX
  }

  /** A length below -1, a bulk string whose closing CRLF is something else, or an
      array with a malformed element behind some good ones. */
  ghost predicate WrongBehind(p: byte, i: int, rest: bytes)
    decreases |rest|, 2
  {
    match p
    case '$' => i < -1 || (i >= 0 && |rest| >= i + 2 && !CrlfAt(rest, i))
    case '*' =>
      i < -1 || exists vs, n :: 0 <= n <= |rest| && |vs| < i && ReadsAll(vs, rest[..n]) && Malformed(rest[n..])
    case _ => false
  }

  lemma OneNumber(t: bytes, i: int, j: int)
    requires Numeral(t, i) && Numeral(t, j) && I64_MIN <= i <= I64_MAX && I64_MIN <= j <= I64_MAX
    ensures i == j
  {
    hide Numeral;
    IntegerExactly(t, i);
    IntegerExactly(t, j);
  }

  /** What a header says, by its line. */
  lemma HeaderByLine(src: bytes, t: bytes, rest: bytes)
    requires LineIs(src, t, rest) && src[0] != '\r'
    ensures ParseHeader(src).BadNumber? <==> !Numbered(t)
    ensures ParseHeader(src) != NoLine
    ensures forall i :: Numeral(t, i) && I64_MIN <= i <= I64_MAX ==> ParseHeader(src) == Number(i, |t| + 3)
    ensures src[|t| + 3..] == rest && |t| + 3 + |rest| == |src|
  {
    hide Utf8, Numeral;
    LineOnly(src, t, rest);
    forall i | Numeral(t, i) && I64_MIN <= i <= I64_MAX ensures ParseHeader(src) == Number(i, |t| + 3) {
      NumeralPlain(t, i);
      IntegerExactly(t, i);
    }
    if ParseHeader(src).Number? {
      IntegerExactly(t, ParseHeader(src).n);
    }
  }

  lemma TextFails(src: bytes, t: bytes, rest: bytes)
    requires LineIs(src, t, rest) && src[0] in "+-"
    ensures Parse(src).Failed? <==> !Utf8(t)
  {
    hide Utf8;
    LineOnly(src, t, rest);
  }

  lemma BulkFails(src: bytes, t: bytes, rest: bytes)
    requires LineIs(src, t, rest) && src[0] in ":$"
    ensures Parse(src).Failed? <==> WrongLine(src[0], t, rest)
  {
    hide Numeral, ParseHeader, LineIs;
    HeaderByLine(src, t, rest);
    if Numbered(t) {
      var i :| Numeral(t, i) && I64_MIN <= i <= I64_MAX;
      forall j | Numeral(t, j) && I64_MIN <= j <= I64_MAX ensures j == i {
        OneNumber(t, i, j);
      }
      var len := |t| + 3;
      assert i >= 0 && |rest| >= i + 2 ==> src[len + i] == rest[i] && src[len + i + 1] == rest[i + 1];
    }
  }

  /** The parser fails exactly on malformed bytes. So it waits for more exactly while
      there is neither a frame nor an error. */
  lemma {:induction false} ErrorsExactly(src: bytes)
    ensures Parse(src).Failed? <==> Malformed(src)
    decreases |src|, 2
  {
    hide Parse, WrongLine;
    if src == [] {
      EmptyNeedsMore();
    } else if src[0] !in "+-:$*" {
      Stray(src);
    } else {
      LineDecides(src);
    }
  }

  lemma Stray(src: bytes)
    requires src != [] && src[0] !in "+-:$*"
    ensures Parse(src).Failed?
  {
    hide ParseText, ParseBulk, ParseArray, ParseInteger;
  }

  lemma NoLineWaits(src: bytes)
    requires src != [] && src[0] in "+-:$*" && FirstLine(src).None?
    ensures Parse(src) == NeedMore
  {
    hide ParseItems;
  }

  lemma {:induction false} LineDecides(src: bytes)
    requires src != [] && src[0] in "+-:$*"
    ensures Parse(src).Failed? <==> Malformed(src)
    decreases |src|, 1
  {
    hide Parse, WrongLine, FirstLine, LineIs;
    if FirstLine(src).None? {
      NoLineWaits(src);
      if t, rest :| LineIs(src, t, rest) {
        LineOnly(src, t, rest);
        assert false;
      }
    } else {
      LineFound(src);
      var l := FirstLine(src).value;
      var t, rest := l.payload, src[l.len..];
      WrongDecides(src, t, rest);
      forall u, r | LineIs(src, u, r) ensures u == t && r == rest {
        LineOnly(src, u, r);
      }
    }
  }

  lemma {:induction false} WrongDecides(src: bytes, t: bytes, rest: bytes)
    requires LineIs(src, t, rest) && src[0] in "+-:$*" && |rest| < |src|
    ensures Parse(src).Failed? <==> WrongLine(src[0], t, rest)
    decreases |src|, 0
  {
    hide Parse, LineIs;
    if src[0] in "+-" {
      TextFails(src, t, rest);
    } else if src[0] in ":$" {
      BulkFails(src, t, rest);
    } else {
      HeaderByLine(src, t, rest);
      ArrayFails(src);
      if Numbered(t) {
        var i :| Numeral(t, i) && I64_MIN <= i <= I64_MAX;
        forall j | Numeral(t, j) && I64_MIN <= j <= I64_MAX ensures j == i {
          OneNumber(t, i, j);
        }
        if i >= 0 {
          ItemsFail(rest, i);
        }
      }
    }
  }

  lemma ArrayFails(src: bytes)
    requires src != [] && src[0] == '*' && ParseHeader(src) != NoLine
    ensures Parse(src).Failed? <==>
            var h := ParseHeader(src);
            h.BadNumber? || h.n < -1 || (h.n >= 0 && ParseItems(src[h.len..], h.n).ItemsFailed?)
  {
    hide ParseHeader, ParseItems;
  }

  /** Elements fail at the first malformed one. */
  ghost predicate SomeMalformed(src: bytes, count: nat)
    decreases |src|, 2
  {
    exists vs, n :: 0 <= n <= |src| && |vs| < count && ReadsAll(vs, src[..n]) && Malformed(src[n..])
  }

  lemma {:induction false} ItemsFail(src: bytes, count: nat)
    ensures ParseItems(src, count).ItemsFailed? <==> SomeMalformed(src, count)
    decreases |src|, 3
  {
    hide Parse, Reads, Malformed;
    if count > 0 {
      ErrorsExactly(src);
      if Parse(src).Failed? {
        assert ReadsAll([], src[..0]) && src[0..] == src && Malformed(src[0..]);
      } else if Parse(src).Frame? {
        var n := Parse(src).consumed;
        FrameIsGrammatical(src);
        ItemsFail(src[n..], count - 1);
        OneFurther(src, count, Parse(src).value, n);
      } else {
        NothingFails(src, count);
      }
    }
  }

  /** Behind a first element, the rest decides. */
  lemma OneFurther(src: bytes, count: nat, v: Value, n: nat)
    requires count > 0 && Parse(src) == Frame(v, n) && Reads(v, src[..n]) && !Malformed(src)
    ensures SomeMalformed(src, count) <==> SomeMalformed(src[n..], count - 1)
  {
    hide Parse, Reads, Malformed;
    if SomeMalformed(src, count) {
      var vs, m :| 0 <= m <= |src| && |vs| < count && ReadsAll(vs, src[..m]) && Malformed(src[m..]);
      FirstIs(src, v, n, vs, m);
      assert src[n..][m - n..] == src[m..] && src[n..][..m - n] == src[..m][n..];
      assert ReadsAll(vs[1..], src[n..][..m - n]);
    }
    if SomeMalformed(src[n..], count - 1) {
      var vs, m :| 0 <= m <= |src[n..]| && |vs| < count - 1 && ReadsAll(vs, src[n..][..m]) && Malformed(src[n..][m..]);
      var all, raw := [v] + vs, src[..n + m];
      assert raw[..n] == src[..n] && raw[n..] == src[n..][..m] && all[1..] == vs && src[n..][m..] == src[n + m..];
      assert ReadsAll(all, raw);
    }
  }

  /** Good elements before a malformed one start with the first frame. */
  lemma FirstIs(src: bytes, v: Value, n: nat, vs: seq<Value>, m: nat)
    requires Parse(src) == Frame(v, n) && !Malformed(src)
    requires m <= |src| && ReadsAll(vs, src[..m]) && Malformed(src[m..])
    ensures vs != [] && n <= m && ReadsAll(vs[1..], src[..m][n..])
  {
    hide Parse, Reads, Malformed;
    assert src[0..] == src;
    assert vs == [] ==> m == 0;
    var k :| 0 <= k <= m && Reads(vs[0], src[..m][..k]) && ReadsAll(vs[1..], src[..m][k..]);
    assert src[..m][..k] == src[..k];
    ParseExactly(src, vs[0], k);
  }

  lemma NothingFails(src: bytes, count: nat)
    requires Parse(src) == NeedMore && !Malformed(src)
    ensures !SomeMalformed(src, count)
  {
    hide Parse, Reads, Malformed;
    if vs, m :| 0 <= m <= |src| && |vs| < count && ReadsAll(vs, src[..m]) && Malformed(src[m..]) {
      assert src[0..] == src;
      assert vs == [] ==> m == 0;
      var k :| 0 <= k <= m && Reads(vs[0], src[..m][..k]) && ReadsAll(vs[1..], src[..m][k..]);
      assert src[..m][..k] == src[..k];
      ParseExactly(src, vs[0], k);
      assert false;
    }
  }
}
