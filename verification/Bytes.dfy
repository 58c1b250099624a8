/** Bytes, lines, text and numbers as the wire protocol sees them. */
module Bytes {

  datatype Option<+T> = None | Some(value: T) {
    predicate IsFailure() {
      None?
    }

    function PropagateFailure<U>(): Option<U>
      requires None?
    {
      None
    }

    function Extract(): T
      requires Some?
    {
      value
    }
  }

  /** An octet, written as the character with the same code. */
  type byte = c: char | c as int < 256 witness '\0'

  type bytes = seq<byte>

  const I64_MAX: int := 0x7FFF_FFFF_FFFF_FFFF
  const I64_MIN: int := -0x8000_0000_0000_0000
  const U64_MAX: int := 0xFFFF_FFFF_FFFF_FFFF

  // ---------------------------------------------------------------- lines

  /** The two bytes at position i are carriage return and line feed. */
  predicate CrlfAt(s: bytes, i: int) {
    0 <= i && i + 1 < |s| && s[i] == '\r' && s[i + 1] == '\n'
  }

  ghost predicate HasCrlf(s: bytes) {
    exists i :: CrlfAt(s, i)
  }

  /** The first position at or after `from` that starts a CRLF, or |s|. */
  function FindCrlf(s: bytes, from: nat): (r: nat)
    requires from <= |s|
    ensures from <= r <= |s|
    ensures r < |s| ==> CrlfAt(s, r)
    ensures forall j :: from <= j < r ==> !CrlfAt(s, j)
    decreases |s| - from
  {
    if from == |s| || CrlfAt(s, from) then from else FindCrlf(s, from + 1)
  }

  // ----------------------------------------------------------------- text

  predicate Tail(b: byte) {
    '\U{80}' <= b <= '\U{BF}'
  }

  /** Length of the UTF-8 sequence at the head of s, 0 when malformed
      (the ABNF in section 4 of RFC 3629). */
  function Utf8Head(s: bytes): (n: nat)
    requires s != []
    ensures n <= |s| && n <= 4
  {
    var b := s[0];
    if b <= '\U{7F}' then 1
    else if |s| >= 2 && '\U{C2}' <= b <= '\U{DF}' && Tail(s[1]) then 2
    else if |s| >= 3 && Utf8Lead3(b, s[1]) && Tail(s[2]) then 3
    else if |s| >= 4 && Utf8Lead4(b, s[1]) && Tail(s[2]) && Tail(s[3]) then 4
    else 0
  }

  predicate Utf8Lead3(b: byte, c: byte) {
    || (b == '\U{E0}' && '\U{A0}' <= c <= '\U{BF}')
    || ('\U{E1}' <= b <= '\U{EC}' && Tail(c))
    || (b == '\U{ED}' && '\U{80}' <= c <= '\U{9F}')
    || ('\U{EE}' <= b <= '\U{EF}' && Tail(c))
  }

  predicate Utf8Lead4(b: byte, c: byte) {
    || (b == '\U{F0}' && '\U{90}' <= c <= '\U{BF}')
    || ('\U{F1}' <= b <= '\U{F3}' && Tail(c))
    || (b == '\U{F4}' && '\U{80}' <= c <= '\U{8F}')
  }

  predicate Utf8(s: bytes)
    decreases |s|
  {
    s == [] || (Utf8Head(s) > 0 && Utf8(s[Utf8Head(s)..]))
  }

  /** ASCII bytes in front do not change whether a text is well formed. */
  predicate Ascii(s: bytes) {
    forall i :: 0 <= i < |s| ==> s[i] <= '\U{7F}'
  }

  lemma {:induction false} Utf8AsciiPrefix(a: bytes, s: bytes)
    requires Ascii(a)
    ensures Utf8(a + s) == Utf8(s)
  {
    if a == [] {
      assert a + s == s;
    } else {
      assert (a + s)[1..] == a[1..] + s;
      Utf8AsciiPrefix(a[1..], s);
    }
  }

  lemma HeadIsLocal(a: bytes, b: bytes)
    requires a != [] && Utf8Head(a) > 0
    ensures Utf8Head(a + b) == Utf8Head(a)
  {
  }

  lemma {:induction false} Utf8Concat(a: bytes, b: bytes)
    requires Utf8(a) && Utf8(b)
    ensures Utf8(a + b)
    decreases |a|
  {
    if a == [] {
      assert a + b == b;
    } else {
      var n := Utf8Head(a);
      HeadIsLocal(a, b);
      hide Utf8Head;
      assert (a + b)[n..] == a[n..] + b;
      Utf8Concat(a[n..], b);
    }
  }

  lemma NoText()
    ensures Utf8([])
  {
  }

  function UpperByte(b: byte): byte {
    if 'a' <= b <= 'z' then (b as int - 32) as char else b
  }

  function Upper(s: bytes): bytes {
    seq(|s|, i requires 0 <= i < |s| => UpperByte(s[i]))
  }

  /** The same byte, or the same ASCII letter in the other case. */
  predicate SameLetter(x: byte, y: byte) {
    || x == y
    || ('a' <= x <= 'z' && x as int == y as int + 32)
    || ('a' <= y <= 'z' && y as int == x as int + 32)
  }

  predicate SameLetters(a: bytes, b: bytes) {
    |a| == |b| && forall i :: 0 <= i < |a| ==> SameLetter(a[i], b[i])
  }

  /** Upper-casing forgets the case of ASCII letters and nothing else, and gives
      upper case. */
  lemma CaseForgotten(a: bytes, b: bytes)
    ensures Upper(a) == Upper(b) <==> SameLetters(a, b)
    ensures SameLetters(a, Upper(a)) && forall i :: 0 <= i < |a| ==> !('a' <= Upper(a)[i] <= 'z')
  {
    forall x: byte, y: byte ensures UpperByte(x) == UpperByte(y) <==> SameLetter(x, y) {
    }
    if Upper(a) == Upper(b) {
      assert |a| == |Upper(a)| == |Upper(b)| == |b|;
      forall i | 0 <= i < |a| ensures SameLetter(a[i], b[i]) {
        assert Upper(a)[i] == Upper(b)[i];
      }
    }
  }

  // -------------------------------------------------------------- numbers

  predicate IsDigit(b: byte) {
    '0' <= b <= '9'
  }

  /** Value of a run of decimal digits; None when some byte is not a digit. */
  function DigitsValue(s: bytes): Option<nat> {
    if s == [] then Some(0) else
    var high := DigitsValue(s[..|s| - 1]);
    var low := s[|s| - 1];
    if high.Some? && IsDigit(low) then Some(10 * high.value + (low as int - '0' as int)) else None
  }

  /** One or more digits whose value is at most max. */
  function ParseDigits(s: bytes, max: nat): Option<nat> {
    var v := DigitsValue(s);
    if s != [] && v.Some? && v.value <= max then v else None
  }

  /** `str::parse` for an unsigned type with the given maximum: an optional
      plus sign, then digits. */
  function ParseUnsigned(s: bytes, max: nat): Option<nat> {
    if s != [] && s[0] == '+' then ParseDigits(s[1..], max) else ParseDigits(s, max)
  }

  /** `str::parse` for i64 and isize. */
  function ParseI64(s: bytes): (r: Option<int>)
    ensures r.Some? ==> I64_MIN <= r.value <= I64_MAX
  {
    if s != [] && s[0] == '-' then
      match ParseDigits(s[1..], -I64_MIN)
      case None => None
      case Some(n) => Some(-(n as int))
    else ParseUnsigned(s, I64_MAX)
  }

  /** `to_string` of a non-negative integer. */
  function Decimal(n: nat): (s: bytes)
    ensures s != []
    ensures forall i :: 0 <= i < |s| ==> IsDigit(s[i])
  {
    var d: byte := ('0' as int + n % 10) as char;
    if n < 10 then [d] else Decimal(n / 10) + [d]
  }

  function DecimalInt(i: int): bytes {
    if i < 0 then "-" + Decimal(-i) else Decimal(i)
  }

  lemma {:induction false} DecimalValue(n: nat)
    ensures DigitsValue(Decimal(n)) == Some(n)
  {
    if n >= 10 {
      DecimalValue(n / 10);
      var s := Decimal(n);
      assert s[..|s| - 1] == Decimal(n / 10);
    } else {
      assert DigitsValue(Decimal(n)[..0]) == Some(0);
    }
  }

  /** Printing then parsing an integer gives it back, whatever its sign. */
  lemma DecimalRoundTrip(i: int)
    requires I64_MIN <= i <= I64_MAX
    ensures ParseI64(DecimalInt(i)) == Some(i)
    ensures i >= 0 ==> ParseUnsigned(DecimalInt(i), I64_MAX) == Some(i)
    ensures Utf8(DecimalInt(i))
    ensures !HasCrlf(DecimalInt(i))
    ensures forall k :: 0 <= k < |DecimalInt(i)| ==> DecimalInt(i)[k] != '\r'
  {
    var s := DecimalInt(i);
    DecimalValue(if i < 0 then -i else i);
    Utf8AsciiPrefix(s, []);
    assert s + [] == s;
    if i < 0 {
      assert s[1..] == Decimal(-i);
    } else {
      assert IsDigit(s[0]);
    }
  }
}
