/** CRC16: the table-driven loop of the program against long division by the
    polynomial x^16 + x^12 + x^5 + 1. */
module Crc16 {
  import opened Bytes
  import opened Words

  // ------------------------------------------------- reference: long division

  /** The message as bits, most significant first. */
  function Bits(s: bytes): seq<bool> {
    if s == [] then [] else
    var b := s[0];
    [Bit(b, 7), Bit(b, 6), Bit(b, 5), Bit(b, 4), Bit(b, 3), Bit(b, 2), Bit(b, 1), Bit(b, 0)] + Bits(s[1..])
  }

  /** x^16 + x^12 + x^5 + 1 without its leading term. */
  const Poly := Hex(1, 0, 2, 1)

  /** Everything one place up, the bit moves in at the bottom. */
  function Doubled8(o: Octet, bit: bool): Octet {
    Octet(o.b6, o.b5, o.b4, o.b3, o.b2, o.b1, o.b0, bit)
  }

  function Doubled(c: Word, bit: bool): Word {
    Word(Doubled8(c.hi, c.lo.b7), Doubled8(c.lo, bit))
  }

  /** The next bit of the dividend moves into a 16-bit remainder; when a bit falls
      out at the top, the polynomial is subtracted. */
  function Shift(r: Word, bit: bool): Word {
    if r.hi.b7 then Xor(Doubled(r, bit), Poly) else Doubled(r, bit)
  }

  function Divide(r: Word, bits: seq<bool>): Word
    decreases |bits|
  {
    if bits == [] then r else Divide(Shift(r, bits[0]), bits[1..])
  }

  function Zeros(n: nat): seq<bool> {
    seq(n, _ => false)
  }

  /** The checksum by definition: the remainder of the message times x^16. */
  function Remainder(s: bytes): Word {
    Divide(Zero, Bits(s) + Zeros(16))
  }

  // -------------------------------------------------------- the program's way

  /** One of eight, by the low three bits of i. */
  function Pick(i: Octet, a: Word, b: Word, c: Word, d: Word, e: Word, f: Word, g: Word, h: Word): Word {
    if !i.b2 then
      if !i.b1 then (if !i.b0 then a else b) else (if !i.b0 then c else d)
    else
      if !i.b1 then (if !i.b0 then e else f) else (if !i.b0 then g else h)
  }

  /** Entries 0 to 31. */
  function Tab0(i: Octet): Word {
    if !i.b4 && !i.b3 then
      Pick(i, Hex(0, 0, 0, 0), Hex(1, 0, 2, 1), Hex(2, 0, 4, 2), Hex(3, 0, 6, 3),
              Hex(4, 0, 8, 4), Hex(5, 0, A, 5), Hex(6, 0, C, 6), Hex(7, 0, E, 7))
    else if !i.b4 then
      Pick(i, Hex(8, 1, 0, 8), Hex(9, 1, 2, 9), Hex(A, 1, 4, A), Hex(B, 1, 6, B),
              Hex(C, 1, 8, C), Hex(D, 1, A, D), Hex(E, 1, C, E), Hex(F, 1, E, F))
    else if !i.b3 then
      Pick(i, Hex(1, 2, 3, 1), Hex(0, 2, 1, 0), Hex(3, 2, 7, 3), Hex(2, 2, 5, 2),
              Hex(5, 2, B, 5), Hex(4, 2, 9, 4), Hex(7, 2, F, 7), Hex(6, 2, D, 6))
    else
      Pick(i, Hex(9, 3, 3, 9), Hex(8, 3, 1, 8), Hex(B, 3, 7, B), Hex(A, 3, 5, A),
              Hex(D, 3, B, D), Hex(C, 3, 9, C), Hex(F, 3, F, F), Hex(E, 3, D, E))
  }

  /** Entries 32 to 63. */
  function Tab1(i: Octet): Word {
    if !i.b4 && !i.b3 then
      Pick(i, Hex(2, 4, 6, 2), Hex(3, 4, 4, 3), Hex(0, 4, 2, 0), Hex(1, 4, 0, 1),
              Hex(6, 4, E, 6), Hex(7, 4, C, 7), Hex(4, 4, A, 4), Hex(5, 4, 8, 5))
    else if !i.b4 then
      Pick(i, Hex(A, 5, 6, A), Hex(B, 5, 4, B), Hex(8, 5, 2, 8), Hex(9, 5, 0, 9),
              Hex(E, 5, E, E), Hex(F, 5, C, F), Hex(C, 5, A, C), Hex(D, 5, 8, D))
    else if !i.b3 then
      Pick(i, Hex(3, 6, 5, 3), Hex(2, 6, 7, 2), Hex(1, 6, 1, 1), Hex(0, 6, 3, 0),
              Hex(7, 6, D, 7), Hex(6, 6, F, 6), Hex(5, 6, 9, 5), Hex(4, 6, B, 4))
    else
      Pick(i, Hex(B, 7, 5, B), Hex(A, 7, 7, A), Hex(9, 7, 1, 9), Hex(8, 7, 3, 8),
              Hex(F, 7, D, F), Hex(E, 7, F, E), Hex(D, 7, 9, D), Hex(C, 7, B, C))
  }

  /** Entries 64 to 95. */
  function Tab2(i: Octet): Word {
    if !i.b4 && !i.b3 then
      Pick(i, Hex(4, 8, C, 4), Hex(5, 8, E, 5), Hex(6, 8, 8, 6), Hex(7, 8, A, 7),
              Hex(0, 8, 4, 0), Hex(1, 8, 6, 1), Hex(2, 8, 0, 2), Hex(3, 8, 2, 3))
    else if !i.b4 then
      Pick(i, Hex(C, 9, C, C), Hex(D, 9, E, D), Hex(E, 9, 8, E), Hex(F, 9, A, F),
              Hex(8, 9, 4, 8), Hex(9, 9, 6, 9), Hex(A, 9, 0, A), Hex(B, 9, 2, B))
    else if !i.b3 then
      Pick(i, Hex(5, A, F, 5), Hex(4, A, D, 4), Hex(7, A, B, 7), Hex(6, A, 9, 6),
              Hex(1, A, 7, 1), Hex(0, A, 5, 0), Hex(3, A, 3, 3), Hex(2, A, 1, 2))
    else
      Pick(i, Hex(D, B, F, D), Hex(C, B, D, C), Hex(F, B, B, F), Hex(E, B, 9, E),
              Hex(9, B, 7, 9), Hex(8, B, 5, 8), Hex(B, B, 3, B), Hex(A, B, 1, A))
  }

  /** Entries 96 to 127. */
  function Tab3(i: Octet): Word {
    if !i.b4 && !i.b3 then
      Pick(i, Hex(6, C, A, 6), Hex(7, C, 8, 7), Hex(4, C, E, 4), Hex(5, C, C, 5),
              Hex(2, C, 2, 2), Hex(3, C, 0, 3), Hex(0, C, 6, 0), Hex(1, C, 4, 1))
    else if !i.b4 then
      Pick(i, Hex(E, D, A, E), Hex(F, D, 8, F), Hex(C, D, E, C), Hex(D, D, C, D),
              Hex(A, D, 2, A), Hex(B, D, 0, B), Hex(8, D, 6, 8), Hex(9, D, 4, 9))
    else if !i.b3 then
      Pick(i, Hex(7, E, 9, 7), Hex(6, E, B, 6), Hex(5, E, D, 5), Hex(4, E, F, 4),
              Hex(3, E, 1, 3), Hex(2, E, 3, 2), Hex(1, E, 5, 1), Hex(0, E, 7, 0))
    else
      Pick(i, Hex(F, F, 9, F), Hex(E, F, B, E), Hex(D, F, D, D), Hex(C, F, F, C),
              Hex(B, F, 1, B), Hex(A, F, 3, A), Hex(9, F, 5, 9), Hex(8, F, 7, 8))
  }

  /** Entries 128 to 159. */
  function Tab4(i: Octet): Word {
    if !i.b4 && !i.b3 then
      Pick(i, Hex(9, 1, 8, 8), Hex(8, 1, A, 9), Hex(B, 1, C, A), Hex(A, 1, E, B),
              Hex(D, 1, 0, C), Hex(C, 1, 2, D), Hex(F, 1, 4, E), Hex(E, 1, 6, F))
    else if !i.b4 then
      Pick(i, Hex(1, 0, 8, 0), Hex(0, 0, A, 1), Hex(3, 0, C, 2), Hex(2, 0, E, 3),
              Hex(5, 0, 0, 4), Hex(4, 0, 2, 5), Hex(7, 0, 4, 6), Hex(6, 0, 6, 7))
    else if !i.b3 then
      Pick(i, Hex(8, 3, B, 9), Hex(9, 3, 9, 8), Hex(A, 3, F, B), Hex(B, 3, D, A),
              Hex(C, 3, 3, D), Hex(D, 3, 1, C), Hex(E, 3, 7, F), Hex(F, 3, 5, E))
    else
      Pick(i, Hex(0, 2, B, 1), Hex(1, 2, 9, 0), Hex(2, 2, F, 3), Hex(3, 2, D, 2),
              Hex(4, 2, 3, 5), Hex(5, 2, 1, 4), Hex(6, 2, 7, 7), Hex(7, 2, 5, 6))
  }

  /** Entries 160 to 191. */
  function Tab5(i: Octet): Word {
    if !i.b4 && !i.b3 then
      Pick(i, Hex(B, 5, E, A), Hex(A, 5, C, B), Hex(9, 5, A, 8), Hex(8, 5, 8, 9),
              Hex(F, 5, 6, E), Hex(E, 5, 4, F), Hex(D, 5, 2, C), Hex(C, 5, 0, D))
    else if !i.b4 then
      Pick(i, Hex(3, 4, E, 2), Hex(2, 4, C, 3), Hex(1, 4, A, 0), Hex(0, 4, 8, 1),
              Hex(7, 4, 6, 6), Hex(6, 4, 4, 7), Hex(5, 4, 2, 4), Hex(4, 4, 0, 5))
    else if !i.b3 then
      Pick(i, Hex(A, 7, D, B), Hex(B, 7, F, A), Hex(8, 7, 9, 9), Hex(9, 7, B, 8),
              Hex(E, 7, 5, F), Hex(F, 7, 7, E), Hex(C, 7, 1, D), Hex(D, 7, 3, C))
    else
      Pick(i, Hex(2, 6, D, 3), Hex(3, 6, F, 2), Hex(0, 6, 9, 1), Hex(1, 6, B, 0),
              Hex(6, 6, 5, 7), Hex(7, 6, 7, 6), Hex(4, 6, 1, 5), Hex(5, 6, 3, 4))
  }

  /** Entries 192 to 223. */
  function Tab6(i: Octet): Word {
    if !i.b4 && !i.b3 then
      Pick(i, Hex(D, 9, 4, C), Hex(C, 9, 6, D), Hex(F, 9, 0, E), Hex(E, 9, 2, F),
              Hex(9, 9, C, 8), Hex(8, 9, E, 9), Hex(B, 9, 8, A), Hex(A, 9, A, B))
    else if !i.b4 then
      Pick(i, Hex(5, 8, 4, 4), Hex(4, 8, 6, 5), Hex(7, 8, 0, 6), Hex(6, 8, 2, 7),
              Hex(1, 8, C, 0), Hex(0, 8, E, 1), Hex(3, 8, 8, 2), Hex(2, 8, A, 3))
    else if !i.b3 then
      Pick(i, Hex(C, B, 7, D), Hex(D, B, 5, C), Hex(E, B, 3, F), Hex(F, B, 1, E),
              Hex(8, B, F, 9), Hex(9, B, D, 8), Hex(A, B, B, B), Hex(B, B, 9, A))
    else
      Pick(i, Hex(4, A, 7, 5), Hex(5, A, 5, 4), Hex(6, A, 3, 7), Hex(7, A, 1, 6),
              Hex(0, A, F, 1), Hex(1, A, D, 0), Hex(2, A, B, 3), Hex(3, A, 9, 2))
  }

  /** Entries 224 to 255. */
  function Tab7(i: Octet): Word {
    if !i.b4 && !i.b3 then
      Pick(i, Hex(F, D, 2, E), Hex(E, D, 0, F), Hex(D, D, 6, C), Hex(C, D, 4, D),
              Hex(B, D, A, A), Hex(A, D, 8, B), Hex(9, D, E, 8), Hex(8, D, C, 9))
    else if !i.b4 then
      Pick(i, Hex(7, C, 2, 6), Hex(6, C, 0, 7), Hex(5, C, 6, 4), Hex(4, C, 4, 5),
              Hex(3, C, A, 2), Hex(2, C, 8, 3), Hex(1, C, E, 0), Hex(0, C, C, 1))
    else if !i.b3 then
      Pick(i, Hex(E, F, 1, F), Hex(F, F, 3, E), Hex(C, F, 5, D), Hex(D, F, 7, C),
              Hex(A, F, 9, B), Hex(B, F, B, A), Hex(8, F, D, 9), Hex(9, F, F, 8))
    else
      Pick(i, Hex(6, E, 1, 7), Hex(7, E, 3, 6), Hex(4, E, 5, 5), Hex(5, E, 7, 4),
              Hex(2, E, 9, 3), Hex(3, E, B, 2), Hex(0, E, D, 1), Hex(1, E, F, 0))
  }

  /** `CRC16_TAB`. */
  function Crc16Tab(i: Octet): Word {
    if !i.b7 then
      if !i.b6 then (if !i.b5 then Tab0(i) else Tab1(i)) else (if !i.b5 then Tab2(i) else Tab3(i))
    else
      if !i.b6 then (if !i.b5 then Tab4(i) else Tab5(i)) else (if !i.b5 then Tab6(i) else Tab7(i))
  }

  /** The loop body: the index is the low octet of a masked word. */
  function TableStep(crc: Word, b: byte): Word {
    Xor(And(Shl8(crc), Word(Ones8, Zero8)),
        Crc16Tab(And(Xor(Shr8(crc), Word(Zero8, OctetOf(b))), Word(Zero8, Ones8)).lo))
  }

  /** `crc16`: the table-driven loop computes the remainder of the division. */
  method Compute(s: bytes) returns (crc: Word)
    ensures crc == Remainder(s)
  {
    hide TableStep, Absorb, Remainder;
    crc := Zero;
    var i := 0;
    while i < |s|
      invariant 0 <= i <= |s|
      invariant Fold(crc, s[i..]) == Fold(Zero, s)
    {
      TableIsSteps(crc, s[i]);
      assert s[i..][0] == s[i] && s[i..][1..] == s[i + 1..];
      crc := TableStep(crc, s[i]);
      i := i + 1;
    }
    FoldIsRemainder(s);
  }

  // --------------------------------------------- the table: eight steps at once

  /** Multiplication by x modulo the polynomial. */
  function Step(c: Word): Word {
    var top := c.hi.b7;
    Word(Octet(c.hi.b6, c.hi.b5, c.hi.b4, c.hi.b3 != top, c.hi.b2, c.hi.b1, c.hi.b0, c.lo.b7),
         Octet(c.lo.b6, c.lo.b5, c.lo.b4 != top, c.lo.b3, c.lo.b2, c.lo.b1, c.lo.b0, top))
  }

  function Step4(c: Word): Word {
    Step(Step(Step(Step(c))))
  }

  function Step8(c: Word): Word {
    Step4(Step4(c))
  }

  /** An octet waiting at the top of an otherwise empty register. */
  function Top(o: Octet): Word {
    Word(o, Zero8)
  }

  /** A byte absorbed at the top of the register. */
  function Absorb(c: Word, b: byte): Word {
    Step8(Xor(c, Top(OctetOf(b))))
  }

  function Fold(c: Word, s: bytes): Word
    decreases |s|
  {
    if s == [] then c else Fold(Absorb(c, s[0]), s[1..])
  }

  lemma StepLinear(a: Word, b: Word)
    ensures Step(Xor(a, b)) == Xor(Step(a), Step(b))
  {
  }

  lemma Step4Linear(a: Word, b: Word)
    ensures Step4(Xor(a, b)) == Xor(Step4(a), Step4(b))
  {
    hide Step, Xor;
    StepLinear(a, b);
    StepLinear(Step(a), Step(b));
    StepLinear(Step(Step(a)), Step(Step(b)));
    StepLinear(Step(Step(Step(a))), Step(Step(Step(b))));
  }

  lemma Step8Linear(a: Word, b: Word)
    ensures Step8(Xor(a, b)) == Xor(Step8(a), Step8(b))
  {
    hide Step4, Xor;
    Step4Linear(a, b);
    Step4Linear(Step4(a), Step4(b));
  }

  /** No information is lost: only zero steps to zero. */
  lemma Step8Injective(a: Word)
    ensures Step8(a) == Zero <==> a == Zero
  {
  }

  /** Four steps of an octet standing at the top, bit by bit. */
  function Closed4(i: Octet): Word {
    Word(Octet(i.b3 != i.b7, i.b2 != i.b6, i.b1 != i.b5, i.b0 != i.b4, false, false, false, i.b7),
         Octet(i.b6, i.b5, i.b4, false, i.b7, i.b6, i.b5, i.b4))
  }

  function Closed(i: Octet): Word {
    Word(Octet(i.b3 != i.b7, i.b2 != i.b6, i.b1 != i.b5, i.b7 != (i.b0 != i.b4), i.b6, i.b5, i.b4, i.b3 != i.b7),
         Octet(i.b7 != (i.b2 != i.b6), i.b6 != (i.b1 != i.b5), i.b5 != (i.b0 != i.b4), i.b4,
               i.b3 != i.b7, i.b2 != i.b6, i.b1 != i.b5, i.b0 != i.b4))
  }

  lemma Closed4Right(i: Octet)
    ensures Closed4(i) == Step4(Word(i, Zero8))
  {
  }

  lemma ClosedFrom4(i: Octet)
    ensures Closed(i) == Step4(Closed4(i))
  {
  }

  lemma ClosedRight(i: Octet)
    ensures Closed(i) == Step8(Word(i, Zero8))
  {
    hide Step4, Closed, Closed4;
    Closed4Right(i);
    ClosedFrom4(i);
  }

  lemma Tab0Right(i: Octet)
    requires !i.b7 && !i.b6 && !i.b5
    ensures Tab0(i) == Closed(i)
  {
  }

  lemma Tab1Right(i: Octet)
    requires !i.b7 && !i.b6 && i.b5
    ensures Tab1(i) == Closed(i)
  {
  }

  lemma Tab2Right(i: Octet)
    requires !i.b7 && i.b6 && !i.b5
    ensures Tab2(i) == Closed(i)
  {
  }

  lemma Tab3Right(i: Octet)
    requires !i.b7 && i.b6 && i.b5
    ensures Tab3(i) == Closed(i)
  {
  }

  lemma Tab4Right(i: Octet)
    requires i.b7 && !i.b6 && !i.b5
    ensures Tab4(i) == Closed(i)
  {
  }

  lemma Tab5Right(i: Octet)
    requires i.b7 && !i.b6 && i.b5
    ensures Tab5(i) == Closed(i)
  {
  }

  lemma Tab6Right(i: Octet)
    requires i.b7 && i.b6 && !i.b5
    ensures Tab6(i) == Closed(i)
  {
  }

  lemma Tab7Right(i: Octet)
    requires i.b7 && i.b6 && i.b5
    ensures Tab7(i) == Closed(i)
  {
  }

  /** Each of the 256 table entries is its index pushed through eight steps. */
  lemma TableEntry(i: Octet)
    ensures Crc16Tab(i) == Step8(Word(i, Zero8))
  {
    hide Tab0, Tab1, Tab2, Tab3, Tab4, Tab5, Tab6, Tab7, Closed, Step8;
    ClosedRight(i);
    if !i.b7 {
      if !i.b6 {
        if !i.b5 { Tab0Right(i); } else { Tab1Right(i); }
      } else {
        if !i.b5 { Tab2Right(i); } else { Tab3Right(i); }
      }
    } else {
      if !i.b6 {
        if !i.b5 { Tab4Right(i); } else { Tab5Right(i); }
      } else {
        if !i.b5 { Tab6Right(i); } else { Tab7Right(i); }
      }
    }
  }

  /** The low half of the register moves up unchanged in eight steps. */
  lemma LowHalfMovesUp(o: Octet)
    ensures Step8(Word(Zero8, o)) == Word(o, Zero8)
  {
    hide Step4;
    var mid := Word(Octet(false, false, false, false, o.b7, o.b6, o.b5, o.b4),
                    Octet(o.b3, o.b2, o.b1, o.b0, false, false, false, false));
    FourUp(Word(Zero8, o), mid);
    FourUp(mid, Word(o, Zero8));
  }

  /** Four steps are a plain shift while nothing falls out at the top. */
  lemma FourUp(w: Word, up: Word)
    requires !w.hi.b7 && !w.hi.b6 && !w.hi.b5 && !w.hi.b4
    requires up.hi == Octet(w.hi.b3, w.hi.b2, w.hi.b1, w.hi.b0, w.lo.b7, w.lo.b6, w.lo.b5, w.lo.b4)
    requires up.lo == Octet(w.lo.b3, w.lo.b2, w.lo.b1, w.lo.b0, false, false, false, false)
    ensures Step4(w) == up
  {
  }

  lemma TableIsSteps(c: Word, b: byte)
    ensures TableStep(c, b) == Absorb(c, b)
  {
    hide Step8, OctetOf, Crc16Tab, Xor8, And8;
    var i := Xor8(c.hi, OctetOf(b));
    Masks(c.lo);
    Masks(Zero8);
    Masks(i);
    Xor8Cancels(c.lo, Zero8);
    Xor8Cancels(i, Zero8);
    Step8Linear(Word(Zero8, c.lo), Word(i, Zero8));
    LowHalfMovesUp(c.lo);
    TableEntry(i);
  }

  // ---------------------------------------------- from division to the register

  function Steps(c: Word, n: nat): Word
    decreases n
  {
    if n == 0 then c else Steps(Step(c), n - 1)
  }

  lemma {:induction false} StepsLinear(a: Word, b: Word, n: nat)
    ensures Steps(Xor(a, b), n) == Xor(Steps(a, n), Steps(b, n))
    decreases n
  {
    hide Step, Xor;
    if n > 0 {
      StepLinear(a, b);
      StepsLinear(Step(a), Step(b), n - 1);
    }
  }

  lemma {:induction false} StepsCommute(c: Word, n: nat)
    ensures Steps(Step(c), n) == Step(Steps(c, n))
    decreases n
  {
    hide Step;
    if n > 0 {
      StepsCommute(Step(c), n - 1);
    }
  }

  /** x^16 is congruent to x^12 + x^5 + 1. */
  lemma OneStepped()
    ensures Steps(Hex(0, 0, 0, 1), 16) == Poly
  {
    hide Step;
    StepsByFour(Hex(0, 0, 0, 1), 12);
    StepsByFour(Hex(0, 0, 1, 0), 8);
    StepsByFour(Hex(0, 1, 0, 0), 4);
    StepsByFour(Hex(1, 0, 0, 0), 0);
    OneUp();
  }

  lemma StepsByFour(c: Word, n: nat)
    ensures Steps(c, n + 4) == Steps(Step4(c), n)
  {
    hide Step;
    assert Steps(c, n + 4) == Steps(Step(Step(c)), n + 2);
  }

  lemma OneUp()
    ensures Step4(Hex(0, 0, 0, 1)) == Hex(0, 0, 1, 0) && Step4(Hex(0, 0, 1, 0)) == Hex(0, 1, 0, 0)
    ensures Step4(Hex(0, 1, 0, 0)) == Hex(1, 0, 0, 0) && Step4(Hex(1, 0, 0, 0)) == Poly
  {
  }

  lemma ShiftIsStep(r: Word, bit: bool)
    ensures Shift(r, bit) == if bit then Xor(Step(r), Hex(0, 0, 0, 1)) else Step(r)
  {
    if r.hi.b7 {
    } else {
    }
  }

  /** A bit absorbed at the top of the register. */
  function Direct(c: Word, bit: bool): Word {
    if bit then Xor(Step(c), Poly) else Step(c)
  }

  function DirectAll(c: Word, bits: seq<bool>): Word
    decreases |bits|
  {
    if bits == [] then c else DirectAll(Direct(c, bits[0]), bits[1..])
  }

  /** Dividing on with sixteen zeros behind commutes with taking in a bit. */
  lemma ShiftThenStep(r: Word, bit: bool)
    ensures Steps(Shift(r, bit), 16) == Direct(Steps(r, 16), bit)
  {
    hide Step, Shift, Steps, Xor, Hex, Poly;
    ShiftIsStep(r, bit);
    StepsCommute(r, 16);
    if bit {
      StepsLinear(Step(r), Hex(0, 0, 0, 1), 16);
      OneStepped();
    }
  }

  lemma {:induction false} DivideZeros(r: Word, n: nat)
    ensures Divide(r, Zeros(n)) == Steps(r, n)
    decreases n
  {
    hide Step, Shift;
    if n > 0 {
      ShiftIsStep(r, false);
      assert Zeros(n)[1..] == Zeros(n - 1);
      DivideZeros(Step(r), n - 1);
    }
  }

  lemma {:induction false} DivideIsDirect(r: Word, bits: seq<bool>)
    ensures Divide(r, bits + Zeros(16)) == DirectAll(Steps(r, 16), bits)
    decreases |bits|
  {
    hide Step, Shift, Steps, Direct;
    if bits == [] {
      assert bits + Zeros(16) == Zeros(16);
      DivideZeros(r, 16);
    } else {
      assert (bits + Zeros(16))[1..] == bits[1..] + Zeros(16);
      ShiftThenStep(r, bits[0]);
      DivideIsDirect(Shift(r, bits[0]), bits[1..]);
    }
  }

  lemma DirectFour(c: Word, p: bool, q: bool, r: bool, t: bool, rest: seq<bool>)
    ensures DirectAll(c, [p, q, r, t] + rest) == DirectAll(Direct(Direct(Direct(Direct(c, p), q), r), t), rest)
  {
    hide Direct;
    var s := [p, q, r, t] + rest;
    var s1, s2, s3 := [q, r, t] + rest, [r, t] + rest, [t] + rest;
    assert s[1..] == s1 && s1[1..] == s2 && s2[1..] == s3 && s3[1..] == rest;
    assert DirectAll(c, s) == DirectAll(Direct(c, p), s1);
    assert DirectAll(Direct(c, p), s1) == DirectAll(Direct(Direct(c, p), q), s2);
    assert DirectAll(Direct(Direct(c, p), q), s2) == DirectAll(Direct(Direct(Direct(c, p), q), r), s3);
  }

  lemma StepTop(o: Octet)
    ensures Step(Top(o)) == if o.b7 then Xor(Poly, Top(Doubled8(o, false))) else Top(Doubled8(o, false))
  {
  }

  /** One step lets the leading bit of the waiting octet in. */
  lemma LetIn(c: Word, o: Octet)
    ensures Step(Xor(c, Top(o))) == Xor(Direct(c, o.b7), Top(Doubled8(o, false)))
  {
    hide Step, Xor, Top, Poly, Doubled8;
    StepLinear(c, Top(o));
    StepTop(o);
    XorAssoc(Step(c), Poly, Top(Doubled8(o, false)));
  }

  lemma LetFourIn(c: Word, o: Octet)
    ensures Step4(Xor(c, Top(o)))
         == Xor(Direct(Direct(Direct(Direct(c, o.b7), o.b6), o.b5), o.b4),
                Top(Octet(o.b3, o.b2, o.b1, o.b0, false, false, false, false)))
  {
    hide Step, Xor, Top, Direct;
    var p := Octet(o.b6, o.b5, o.b4, o.b3, o.b2, o.b1, o.b0, false);
    var q := Octet(o.b5, o.b4, o.b3, o.b2, o.b1, o.b0, false, false);
    var r := Octet(o.b4, o.b3, o.b2, o.b1, o.b0, false, false, false);
    LetIn(c, o);
    LetIn(Direct(c, o.b7), p);
    LetIn(Direct(Direct(c, o.b7), o.b6), q);
    LetIn(Direct(Direct(Direct(c, o.b7), o.b6), o.b5), r);
  }

  /** A whole octet let in bit by bit. */
  function Direct8(c: Word, o: Octet): Word {
    var c := Direct(Direct(Direct(Direct(c, o.b7), o.b6), o.b5), o.b4);
    Direct(Direct(Direct(Direct(c, o.b3), o.b2), o.b1), o.b0)
  }

  lemma LetEightIn(c: Word, o: Octet)
    ensures Step8(Xor(c, Top(o))) == Direct8(c, o)
  {
    hide Step4, Xor, Top, Direct;
    var rest := Octet(o.b3, o.b2, o.b1, o.b0, false, false, false, false);
    LetFourIn(c, o);
    LetFourIn(Direct(Direct(Direct(Direct(c, o.b7), o.b6), o.b5), o.b4), rest);
    TopZero(Direct8(c, o));
  }

  lemma TopZero(c: Word)
    ensures Xor(c, Top(Octet(false, false, false, false, false, false, false, false))) == c
  {
    XorCancels(c, Zero);
  }

  lemma DirectEight(c: Word, o: Octet, rest: seq<bool>)
    ensures DirectAll(c, [o.b7, o.b6, o.b5, o.b4, o.b3, o.b2, o.b1, o.b0] + rest) == DirectAll(Direct8(c, o), rest)
  {
    hide Direct, DirectAll;
    var low := [o.b3, o.b2, o.b1, o.b0] + rest;
    assert [o.b7, o.b6, o.b5, o.b4, o.b3, o.b2, o.b1, o.b0] + rest == [o.b7, o.b6, o.b5, o.b4] + low;
    DirectFour(c, o.b7, o.b6, o.b5, o.b4, low);
    DirectFour(Direct(Direct(Direct(Direct(c, o.b7), o.b6), o.b5), o.b4), o.b3, o.b2, o.b1, o.b0, rest);
  }

  lemma {:induction false} DirectIsFold(c: Word, s: bytes)
    ensures DirectAll(c, Bits(s)) == Fold(c, s)
    decreases |s|
  {
    hide Direct8, Bit, Step8, Xor;
    if s != [] {
      DirectEight(c, OctetOf(s[0]), Bits(s[1..]));
      LetEightIn(c, OctetOf(s[0]));
      DirectIsFold(Absorb(c, s[0]), s[1..]);
    }
  }

  lemma {:induction false} ZeroSteps(n: nat)
    ensures Steps(Zero, n) == Zero
  {
    if n > 0 {
      assert Step(Zero) == Zero;
      ZeroSteps(n - 1);
    }
  }

  /** The register form computes the remainder. */
  lemma FoldIsRemainder(s: bytes)
    ensures Fold(Zero, s) == Remainder(s)
  {
    hide Divide, DirectAll, Fold, Steps;
    DivideIsDirect(Zero, Bits(s));
    ZeroSteps(16);
    DirectIsFold(Zero, s);
  }
}
