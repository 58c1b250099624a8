/** What text and numbers on the wire are, by themselves: UTF-8 as the encoding of
    Unicode scalar values, and integers as signed decimal numerals. */
module Text {
  import opened Bytes

  // -------------------------------------------------------------------- UTF-8

  /** A Unicode scalar value: any code point but a surrogate. */
  predicate Scalar(c: int) {
    0 <= c < 0xD800 || 0xE000 <= c <= 0x10FFFF
  }

  function Octet(n: int): byte
    requires 0 <= n < 256
  {
    n as char
  }

  /** The encoding of a scalar value (section 3 of RFC 3629). */
  function Encode(c: int): (s: bytes)
    requires Scalar(c)
    ensures 1 <= |s| <= 4
  {
    if c < 0x80 then [Octet(c)]
    else if c < 0x800 then [Octet(0xC0 + c / 64), Octet(0x80 + c % 64)]
    else if c < 0x10000 then [Octet(0xE0 + c / 4096), Octet(0x80 + c / 64 % 64), Octet(0x80 + c % 64)]
    else [Octet(0xF0 + c / 262144), Octet(0x80 + c / 4096 % 64), Octet(0x80 + c / 64 % 64), Octet(0x80 + c % 64)]
  }

  ghost predicate Scalars(cs: seq<int>) {
    forall c <- cs :: Scalar(c)
  }

  function EncodeAll(cs: seq<int>): bytes
    requires Scalars(cs)
  {
    if cs == [] then [] else
    assert Scalar(cs[0]);
    Encode(cs[0]) + EncodeAll(cs[1..])
  }

  /** The scalar value that a well-formed head encodes. */
  function Head(s: bytes): (c: int)
    requires s != [] && Utf8Head(s) > 0
  {
    var n, b := Utf8Head(s), s[0] as int;
    if n == 1 then b
    else if n == 2 then (b - 0xC0) * 64 + (s[1] as int - 0x80)
    else if n == 3 then (b - 0xE0) * 4096 + (s[1] as int - 0x80) * 64 + (s[2] as int - 0x80)
    else (b - 0xF0) * 262144 + (s[1] as int - 0x80) * 4096 + (s[2] as int - 0x80) * 64 + (s[3] as int - 0x80)
  }

  lemma HeadDecodes(s: bytes)
    requires s != [] && Utf8Head(s) > 0
    ensures Scalar(Head(s)) && s[..Utf8Head(s)] == Encode(Head(s))
  {
    match Utf8Head(s)
    case 1 =>
    case 2 => TwoDecode(s[0], s[1]);
    case 3 => ThreeDecode(s[0], s[1], s[2]);
    case _ => FourDecode(s[0], s[1], s[2], s[3]);
  }

  lemma TwoDecode(b: byte, y: byte)
    requires '\U{C2}' <= b <= '\U{DF}' && Tail(y)
    ensures var c := (b as int - 0xC0) * 64 + (y as int - 0x80);
            Scalar(c) && [b, y] == Encode(c)
  {
  }

  /** A number in base 64 gives back its digits. */
  lemma Base64(x: nat, y: nat)
    requires y < 64
    ensures (x * 64 + y) / 64 == x && (x * 64 + y) % 64 == y
  {
  }

  lemma ThreeDecode(b: byte, y: byte, z: byte)
    requires Utf8Lead3(b, y) && Tail(z)
    ensures var c := (b as int - 0xE0) * 4096 + (y as int - 0x80) * 64 + (z as int - 0x80);
            Scalar(c) && [b, y, z] == Encode(c)
  {
    var p, q, r := b as int - 0xE0, y as int - 0x80, z as int - 0x80;
    var c := p * 4096 + q * 64 + r;
    assert c == (p * 64 + q) * 64 + r;
    Base64(p * 64 + q, r);
    Base64(p, q);
    assert c / 4096 == p && 0x800 <= c < 0x10000;
  }

  lemma FourDecode(b: byte, x: byte, y: byte, z: byte)
    requires Utf8Lead4(b, x) && Tail(y) && Tail(z)
    ensures var c := (b as int - 0xF0) * 262144 + (x as int - 0x80) * 4096 + (y as int - 0x80) * 64 + (z as int - 0x80);
            Scalar(c) && [b, x, y, z] == Encode(c)
  {
    var o, p, q, r := b as int - 0xF0, x as int - 0x80, y as int - 0x80, z as int - 0x80;
    var c := o * 262144 + p * 4096 + q * 64 + r;
    assert c == ((o * 64 + p) * 64 + q) * 64 + r;
    Base64((o * 64 + p) * 64 + q, r);
    Base64(o * 64 + p, q);
    Base64(o, p);
    assert c / 4096 == o * 64 + p && c / 262144 == o && 0x10000 <= c <= 0x10FFFF;
  }

  lemma EncodedHead(c: int, rest: bytes)
    requires Scalar(c)
    ensures Utf8Head(Encode(c) + rest) == |Encode(c)|
  {
    EncodedIsHead(c);
    HeadIsLocal(Encode(c), rest);
  }

  lemma EncodedIsHead(c: int)
    requires Scalar(c)
    ensures Utf8Head(Encode(c)) == |Encode(c)|
  {
  }

  /** The text check accepts exactly the encodings of sequences of scalar values. */
  lemma Utf8Exactly(s: bytes)
    ensures Utf8(s) <==> exists cs :: Scalars(cs) && s == EncodeAll(cs)
  {
    if Utf8(s) {
      var cs := Decoded(s);
    }
    if cs :| Scalars(cs) && s == EncodeAll(cs) {
      EncodedIsText(cs);
    }
  }

  lemma {:induction false} Decoded(s: bytes) returns (cs: seq<int>)
    requires Utf8(s)
    ensures Scalars(cs) && s == EncodeAll(cs)
    decreases |s|
  {
    hide Utf8Head, Encode, Head;
    cs := [];
    if s != [] {
      var n := Utf8Head(s);
      HeadDecodes(s);
      var rest := Decoded(s[n..]);
      cs := [Head(s)] + rest;
      assert cs[1..] == rest && s == s[..n] + s[n..];
    }
  }

  lemma {:induction false} EncodedIsText(cs: seq<int>)
    requires Scalars(cs)
    ensures Utf8(EncodeAll(cs))
    decreases |cs|
  {
    hide Utf8Head, Encode;
    if cs != [] {
      assert Scalar(cs[0]);
      EncodedHead(cs[0], EncodeAll(cs[1..]));
      EncodedIsText(cs[1..]);
      var e, rest := Encode(cs[0]), EncodeAll(cs[1..]);
      assert (e + rest)[|e|..] == rest;
    }
  }

  // ----------------------------------------------------------------- numerals

  function Pow10(n: nat): nat {
    if n == 0 then 1 else 10 * Pow10(n - 1)
  }

  predicate Digits(s: bytes) {
    s != [] && forall i :: 0 <= i < |s| ==> '0' <= s[i] <= '9'
  }

  /** The value of digits by their place: the first counts the most. */
  function Places(s: bytes): nat
    requires forall i :: 0 <= i < |s| ==> '0' <= s[i] <= '9'
  {
    if s == [] then 0 else (s[0] as int - '0' as int) * Pow10(|s| - 1) + Places(s[1..])
  }

  lemma {:induction false} DigitsByPlace(s: bytes)
    ensures DigitsValue(s).Some? <==> forall i :: 0 <= i < |s| ==> '0' <= s[i] <= '9'
    ensures DigitsValue(s).Some? ==> DigitsValue(s).value == Places(s)
    decreases |s|
  {
    if s != [] {
      var n := |s| - 1;
      DigitsByPlace(s[..n]);
      assert forall i :: 0 <= i < n ==> s[..n][i] == s[i];
      if DigitsValue(s).Some? {
        PlacesLast(s);
      }
    }
  }

  lemma TenTimes(d: int, p: int, r: int)
    ensures d * (10 * p) + 10 * r == 10 * (d * p + r)
  {
  }

  lemma {:induction false} PlacesLast(s: bytes)
    requires Digits(s)
    ensures Places(s) == 10 * Places(s[..|s| - 1]) + (s[|s| - 1] as int - '0' as int)
    decreases |s|
  {
    var n := |s| - 1;
    if n == 0 {
      assert Places(s[1..]) == 0 && Places(s[..0]) == 0;
    } else {
      var t, u := s[1..], s[..n];
      PlacesLast(t);
      assert t[..n - 1] == u[1..] && t[n - 1] == s[n];
      TenTimes(s[0] as int - '0' as int, Pow10(n - 1), Places(u[1..]));
    }
  }

  /** A numeral for i: digits with an optional sign. */
  predicate Numeral(s: bytes, i: int) {
    || (Digits(s) && i == Places(s))
    || (s != [] && s[0] == '+' && Digits(s[1..]) && i == Places(s[1..]))
    || (s != [] && s[0] == '-' && Digits(s[1..]) && i + Places(s[1..]) == 0)
  }

  /** Integers of 64 bits are read from exactly the numerals for them. */
  lemma IntegerExactly(s: bytes, i: int)
    ensures ParseI64(s) == Some(i) <==> Numeral(s, i) && -9223372036854775808 <= i <= 9223372036854775807
  {
    hide DigitsValue, Places;
    DigitsByPlace(s);
    if s != [] {
      DigitsByPlace(s[1..]);
    }
  }

  /** Unsigned integers are read from exactly the numerals without a minus sign. */
  lemma UnsignedExactly(s: bytes, n: nat, max: nat)
    ensures ParseUnsigned(s, max) == Some(n) <==> Numeral(s, n) && n <= max && s != [] && s[0] != '-'
  {
    hide DigitsValue, Places;
    DigitsByPlace(s);
    if s != [] {
      DigitsByPlace(s[1..]);
    }
  }

  /** Printing gives the shortest numeral: no sign but a minus, no leading zero. */
  lemma {:induction false} DecimalShortest(n: nat)
    ensures Digits(Decimal(n)) && Places(Decimal(n)) == n
    ensures n > 0 ==> Decimal(n)[0] != '0'
    ensures n == 0 ==> Decimal(n) == "0"
    decreases n
  {
    hide Places;
    DecimalValue(n);
    DigitsByPlace(Decimal(n));
    if n >= 10 {
      DecimalShortest(n / 10);
      assert Decimal(n)[0] == Decimal(n / 10)[0];
    }
  }
}
