/** The one size computation of the parser that can leave the machine word. */
module RespLimits {
  import opened Bytes
  import opened Resp
  import RoundTrip

  /** `line_len + length + 2` is computed in a 64-bit usize on a buffer of at
      most isize::MAX bytes. It fits for every header but one: the line fills
      the whole address range and announces the largest length. */
  lemma BulkLengthFits(src: bytes)
    requires src != [] && src[0] == '$' && |src| <= I64_MAX
    requires ParseHeader(src).Number? && ParseHeader(src).n >= 0
    ensures var h := ParseHeader(src);
            h.len + h.n + 2 <= U64_MAX <==> !(h.len == I64_MAX && h.n == I64_MAX)
  {
  }

  function ZeroDigits(k: nat): bytes {
    seq(k, _ => '0')
  }

  lemma {:induction false} LeadingZeros(k: nat, s: bytes)
    ensures DigitsValue(ZeroDigits(k) + s) == DigitsValue(s)
    decreases k, |s|
  {
    var z := ZeroDigits(k) + s;
    if s != [] {
      assert z[..|z| - 1] == ZeroDigits(k) + s[..|s| - 1] && z[|z| - 1] == s[|s| - 1];
      LeadingZeros(k, s[..|s| - 1]);
    } else if k > 0 {
      assert z[..|z| - 1] == ZeroDigits(k - 1) + s && z[|z| - 1] == '0';
      LeadingZeros(k - 1, s);
    }
  }

  lemma {:induction false} DecimalShort(n: nat)
    ensures |Decimal(n)| <= 1 + n / 10
  {
    if n >= 10 {
      DecimalShort(n / 10);
    }
  }

  /** Leading zeros do not change the number a header announces. */
  lemma PaddedHeader(k: nat, n: nat)
    requires n <= I64_MAX
    ensures var digits := ZeroDigits(k) + Decimal(n);
            ParseHeader("$" + digits + "\r\n") == Number(n, |digits| + 3)
  {
    hide FindCrlf, DigitsValue, Utf8;
    var digits := ZeroDigits(k) + Decimal(n);
    assert forall i :: 0 <= i < |digits| ==> IsDigit(digits[i]);
    Utf8AsciiPrefix(digits, []);
    assert digits + [] == digits;
    NoText();
    RoundTrip.FirstLineOf('$', digits, []);
    assert "$" + digits + "\r\n" + [] == "$" + digits + "\r\n";
    LeadingZeros(k, Decimal(n));
    DecimalValue(n);
    assert IsDigit(digits[0]);
  }

  /** That one header exists: the largest length, padded with leading zeros. */
  lemma BulkLengthMayOverflow() returns (src: bytes)
    ensures |src| == I64_MAX && src[0] == '$'
    ensures ParseHeader(src) == Number(I64_MAX, I64_MAX)
    ensures ParseHeader(src).len + ParseHeader(src).n + 2 > U64_MAX
  {
    hide ParseHeader, Decimal;
    DecimalShort(I64_MAX);
    var k := I64_MAX - 3 - |Decimal(I64_MAX)|;
    PaddedHeader(k, I64_MAX);
    src := "$" + (ZeroDigits(k) + Decimal(I64_MAX)) + "\r\n";
  }
}
