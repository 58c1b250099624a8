/** Octets and 16-bit words as their bits, with the operators the checksum uses. */
module Words {
  import opened Bytes

  /** A u8 as its bits. */
  datatype Octet = Octet(b7: bool, b6: bool, b5: bool, b4: bool, b3: bool, b2: bool, b1: bool, b0: bool)

  /** A u16 as its two octets. */
  datatype Word = Word(hi: Octet, lo: Octet)

  const Zero8 := Octet(false, false, false, false, false, false, false, false)
  const Ones8 := Octet(true, true, true, true, true, true, true, true)
  const Zero := Word(Zero8, Zero8)

  function Xor8(a: Octet, b: Octet): Octet {
    Octet(a.b7 != b.b7, a.b6 != b.b6, a.b5 != b.b5, a.b4 != b.b4,
          a.b3 != b.b3, a.b2 != b.b2, a.b1 != b.b1, a.b0 != b.b0)
  }

  function And8(a: Octet, b: Octet): Octet {
    Octet(a.b7 && b.b7, a.b6 && b.b6, a.b5 && b.b5, a.b4 && b.b4,
          a.b3 && b.b3, a.b2 && b.b2, a.b1 && b.b1, a.b0 && b.b0)
  }

  function Xor(a: Word, b: Word): Word {
    Word(Xor8(a.hi, b.hi), Xor8(a.lo, b.lo))
  }

  function And(a: Word, b: Word): Word {
    Word(And8(a.hi, b.hi), And8(a.lo, b.lo))
  }

  /** `<< 8` and `>> 8`. */
  function Shl8(w: Word): Word {
    Word(w.lo, Zero8)
  }

  function Shr8(w: Word): Word {
    Word(Zero8, w.hi)
  }

  function Nat8(o: Octet): nat {
    (if o.b7 then 128 else 0) + (if o.b6 then 64 else 0) + (if o.b5 then 32 else 0) + (if o.b4 then 16 else 0) +
    (if o.b3 then 8 else 0) + (if o.b2 then 4 else 0) + (if o.b1 then 2 else 0) + (if o.b0 then 1 else 0)
  }

  function Nat(w: Word): nat {
    256 * Nat8(w.hi) + Nat8(w.lo)
  }

  const A := 10
  const B := 11
  const C := 12
  const D := 13
  const E := 14
  const F := 15

  predicate Bit8(n: int) { n >= 8 }
  predicate Bit4(n: int) { 4 <= n < 8 || 12 <= n }
  predicate Bit2(n: int) { 2 <= n < 4 || 6 <= n < 8 || 10 <= n < 12 || 14 <= n }
  predicate Bit1(n: int) { n == 1 || n == 3 || n == 5 || n == 7 || n == 9 || n == 11 || n == 13 || n == 15 }

  /** The word written with these four hexadecimal digits. */
  function Hex(p: int, q: int, r: int, t: int): Word {
    Word(Octet(Bit8(p), Bit4(p), Bit2(p), Bit1(p), Bit8(q), Bit4(q), Bit2(q), Bit1(q)),
         Octet(Bit8(r), Bit4(r), Bit2(r), Bit1(r), Bit8(t), Bit4(t), Bit2(t), Bit1(t)))
  }

  // ---------------------------------------------------------- laws of exclusive or

  lemma Xor8Swaps(a: Octet, b: Octet, c: Octet, d: Octet)
    ensures Xor8(Xor8(a, b), Xor8(c, d)) == Xor8(Xor8(a, c), Xor8(b, d))
  {
  }

  lemma Xor8Cancels(a: Octet, b: Octet)
    ensures Xor8(a, a) == Zero8 && Xor8(a, Zero8) == a && Xor8(Zero8, a) == a
    ensures Xor8(a, b) == Zero8 ==> a == b
  {
    hide Xor8;
    Xor8Self(a);
    Xor8None(a);
    if Xor8(a, b) == Zero8 {
      Xor8Same(a, b);
    }
  }

  lemma Xor8Self(a: Octet)
    ensures Xor8(a, a) == Zero8
  {
  }

  lemma Xor8None(a: Octet)
    ensures Xor8(a, Zero8) == a && Xor8(Zero8, a) == a
  {
  }

  lemma Xor8Same(a: Octet, b: Octet)
    requires Xor8(a, b) == Zero8
    ensures a == b
  {
  }

  lemma Xor8Assoc(a: Octet, b: Octet, c: Octet)
    ensures Xor8(a, Xor8(b, c)) == Xor8(Xor8(a, b), c)
  {
  }

  lemma XorSwaps(a: Word, b: Word, c: Word, d: Word)
    ensures Xor(Xor(a, b), Xor(c, d)) == Xor(Xor(a, c), Xor(b, d))
  {
    hide Xor8;
    Xor8Swaps(a.hi, b.hi, c.hi, d.hi);
    Xor8Swaps(a.lo, b.lo, c.lo, d.lo);
  }

  lemma XorCancels(a: Word, b: Word)
    ensures Xor(a, a) == Zero && Xor(a, Zero) == a
    ensures Xor(a, b) == Zero ==> a == b
  {
    hide Xor8;
    Xor8Cancels(a.hi, b.hi);
    Xor8Cancels(a.lo, b.lo);
  }

  lemma XorAssoc(a: Word, b: Word, c: Word)
    ensures Xor(a, Xor(b, c)) == Xor(Xor(a, b), c)
  {
    hide Xor8;
    Xor8Assoc(a.hi, b.hi, c.hi);
    Xor8Assoc(a.lo, b.lo, c.lo);
  }

  lemma FromZero(w: Word)
    ensures Xor(Zero, w) == w
  {
    hide Xor8;
    Xor8Cancels(w.hi, w.hi);
    Xor8Cancels(w.lo, w.lo);
  }

  lemma Masks(o: Octet)
    ensures And8(o, Ones8) == o && And8(o, Zero8) == Zero8
  {
  }

  // ------------------------------------------------------------- bytes as octets

  function Halved(n: nat, k: nat): nat {
    if k == 0 then n else Halved(n / 2, k - 1)
  }

  /** Bit k of a byte, counted from the least significant. */
  predicate Bit(b: byte, k: nat) {
    Halved(b as int, k) % 2 == 1
  }

  function OctetOf(b: byte): Octet {
    Octet(Bit(b, 7), Bit(b, 6), Bit(b, 5), Bit(b, 4), Bit(b, 3), Bit(b, 2), Bit(b, 1), Bit(b, 0))
  }

  lemma ByteValue(b: byte)
    ensures Nat8(OctetOf(b)) == b as int
  {
    hide Halved;
    var n0 := b as int;
    var n1, n2, n3 := Halved(n0, 1), Halved(n0, 2), Halved(n0, 3);
    var n4, n5, n6, n7 := Halved(n0, 4), Halved(n0, 5), Halved(n0, 6), Halved(n0, 7);
    HalvedNone(n0);
    HalvedOnce(n0, 0);
    HalvedOnce(n0, 1);
    HalvedOnce(n0, 2);
    HalvedOnce(n0, 3);
    HalvedOnce(n0, 4);
    HalvedOnce(n0, 5);
    HalvedOnce(n0, 6);
    SumOfBits(n0, n1, n2, n3, n4, n5, n6, n7);
  }

  lemma HalvedNone(n: nat)
    ensures Halved(n, 0) == n
  {
  }

  lemma {:induction false} HalvedOnce(n: nat, k: nat)
    ensures Halved(n, k + 1) == Halved(n, k) / 2
    decreases k
  {
    if k > 0 {
      HalvedOnce(n / 2, k - 1);
    }
  }

  lemma Half(n: nat, h: nat)
    requires h == n / 2
    ensures n == 2 * h + if n % 2 == 1 then 1 else 0
  {
  }

  lemma SumOfBits(n0: nat, n1: nat, n2: nat, n3: nat, n4: nat, n5: nat, n6: nat, n7: nat)
    requires n0 < 256 && n1 == n0 / 2 && n2 == n1 / 2 && n3 == n2 / 2
    requires n4 == n3 / 2 && n5 == n4 / 2 && n6 == n5 / 2 && n7 == n6 / 2
    ensures n0 == (if n7 % 2 == 1 then 128 else 0) + (if n6 % 2 == 1 then 64 else 0)
                + (if n5 % 2 == 1 then 32 else 0) + (if n4 % 2 == 1 then 16 else 0)
                + (if n3 % 2 == 1 then 8 else 0) + (if n2 % 2 == 1 then 4 else 0)
                + (if n1 % 2 == 1 then 2 else 0) + (if n0 % 2 == 1 then 1 else 0)
  {
    FourHalves(n0, n1, n2, n3, n4);
    FourHalves(n4, n5, n6, n7, n7 / 2);
    assert n4 < 16;
  }

  lemma FourHalves(n0: nat, n1: nat, n2: nat, n3: nat, n4: nat)
    requires n1 == n0 / 2 && n2 == n1 / 2 && n3 == n2 / 2 && n4 == n3 / 2
    ensures n0 == 16 * n4 + (if n3 % 2 == 1 then 8 else 0) + (if n2 % 2 == 1 then 4 else 0)
                + (if n1 % 2 == 1 then 2 else 0) + (if n0 % 2 == 1 then 1 else 0)
  {
    Half(n0, n1);
    Half(n1, n2);
    Half(n2, n3);
    Half(n3, n4);
  }

  lemma OctetInjective(a: byte, b: byte)
    requires OctetOf(a) == OctetOf(b)
    ensures a == b
  {
    hide OctetOf, Nat8;
    ByteValue(a);
    ByteValue(b);
  }
}
