/** What the checksum detects: it is linear, and changing one byte or two
    neighbouring bytes of a key always changes it. */
module CrcDetection {
  import opened Bytes
  import opened Words
  import opened Crc16

  /** c is the byte-wise exclusive or of a and b. */
  ghost predicate IsXor(a: bytes, b: bytes, c: bytes) {
    && |a| == |b| == |c|
    && forall i :: 0 <= i < |a| ==> OctetOf(c[i]) == Xor8(OctetOf(a[i]), OctetOf(b[i]))
  }

  lemma TopXor(a: Octet, b: Octet)
    ensures Top(Xor8(a, b)) == Xor(Top(a), Top(b))
  {
    hide Xor8;
    Xor8Cancels(Zero8, Zero8);
  }

  lemma {:induction false} FoldLinear(x: Word, a: bytes, y: Word, b: bytes, c: bytes)
    requires IsXor(a, b, c)
    ensures Fold(Xor(x, y), c) == Xor(Fold(x, a), Fold(y, b))
    decreases |a|
  {
    hide Step8, OctetOf, Xor, Xor8, Top;
    if a != [] {
      var u, v := OctetOf(a[0]), OctetOf(b[0]);
      TopXor(u, v);
      XorSwaps(x, y, Top(u), Top(v));
      Step8Linear(Xor(x, Top(u)), Xor(y, Top(v)));
      FoldLinear(Absorb(x, a[0]), a[1..], Absorb(y, b[0]), b[1..], c[1..]);
    }
  }

  /** The checksum is linear: the checksum of an exclusive or of equally long
      messages is the exclusive or of their checksums. */
  lemma Crc16Linear(a: bytes, b: bytes, c: bytes)
    requires IsXor(a, b, c)
    ensures Remainder(c) == Xor(Remainder(a), Remainder(b))
  {
    hide Fold, Remainder, IsXor, Xor;
    XorCancels(Zero, Zero);
    FoldLinear(Zero, a, Zero, b, c);
    FoldIsRemainder(a);
    FoldIsRemainder(b);
    FoldIsRemainder(c);
  }

  lemma {:induction false} FoldTogether(x: Word, y: Word, s: bytes)
    ensures Fold(x, s) == Fold(y, s) ==> x == y
    decreases |s|
  {
    hide Step8, OctetOf, Xor, Top;
    if s != [] {
      var w := Top(OctetOf(s[0]));
      FoldTogether(Absorb(x, s[0]), Absorb(y, s[0]), s[1..]);
      SameStep8(Xor(x, w), Xor(y, w));
      XorSwaps(x, w, y, w);
      XorCancels(w, w);
      XorCancels(Xor(x, y), w);
      XorCancels(Xor(x, w), Xor(y, w));
      XorCancels(x, y);
    }
  }

  lemma SameStep8(u: Word, v: Word)
    ensures Step8(u) == Step8(v) ==> u == v
  {
    hide Step8, Xor;
    Step8Linear(u, v);
    Step8Injective(Xor(u, v));
    XorCancels(Step8(u), Step8(v));
    XorCancels(u, v);
  }

  /** A change in one byte reaches the low half of the register. */
  lemma OneByteShows(o: Octet)
    requires o != Zero8
    ensures Step8(Top(o)).lo != Zero8
  {
    ClosedRight(o);
  }

  /** Two different pairs of bytes leave different registers behind. */
  lemma PairShows(c: Word, a: byte, b: byte, a': byte, b': byte)
    requires a != a' || b != b'
    ensures Absorb(Absorb(c, a), b) != Absorb(Absorb(c, a'), b')
  {
    hide Step8, OctetOf;
    if OctetOf(a) == OctetOf(a') {
      OctetInjective(a, a');
    }
    if OctetOf(b) == OctetOf(b') {
      OctetInjective(b, b');
    }
    RegistersDiffer(c, OctetOf(a), OctetOf(b), OctetOf(a'), OctetOf(b'));
  }

  lemma RegistersDiffer(c: Word, a: Octet, b: Octet, p: Octet, q: Octet)
    requires a != p || b != q
    ensures Step8(Xor(Step8(Xor(c, Top(a))), Top(b))) != Step8(Xor(Step8(Xor(c, Top(p))), Top(q)))
  {
    hide Step8, Xor8;
    var x, y := Step8(Xor(c, Top(a))), Step8(Xor(c, Top(p)));
    SameStep8(Xor(x, Top(b)), Xor(y, Top(q)));
    if Xor(x, Top(b)) == Xor(y, Top(q)) {
      LowHalvesAgree(x, y, b, q);
      Step8Linear(Xor(c, Top(a)), Xor(c, Top(p)));
      XorSwaps(c, Top(a), c, Top(p));
      XorCancels(c, c);
      TopXor(a, p);
      FromZero(Top(Xor8(a, p)));
      Xor8Cancels(a, p);
      if a != p {
        OneByteShows(Xor8(a, p));
        Xor8Cancels(x.lo, y.lo);
        assert false;
      }
    }
  }

  lemma LowHalvesAgree(x: Word, y: Word, b: Octet, q: Octet)
    requires Xor(x, Top(b)) == Xor(y, Top(q))
    ensures x.lo == y.lo && (x.hi == y.hi ==> b == q)
  {
    hide Xor8;
    Xor8Cancels(x.lo, Zero8);
    Xor8Cancels(y.lo, Zero8);
    if x.hi == y.hi {
      Xor8Swaps(x.hi, b, y.hi, q);
      Xor8Cancels(x.hi, y.hi);
      Xor8Cancels(Xor8(b, q), Zero8);
      Xor8Cancels(Xor8(x.hi, b), Zero8);
      Xor8Cancels(b, q);
    }
  }

  /** Error detection: changing two neighbouring bytes of a key, or one of them,
      always changes its CRC16. */
  lemma ChangeIsDetected(head: bytes, a: byte, b: byte, a': byte, b': byte, tail: bytes)
    requires a != a' || b != b'
    ensures Remainder(head + [a, b] + tail) != Remainder(head + [a', b'] + tail)
  {
    hide Absorb, Fold, Remainder;
    var c := Fold(Zero, head);
    PairShows(c, a, b, a', b');
    FoldPair(head, a, b, tail);
    FoldPair(head, a', b', tail);
    FoldTogether(Absorb(Absorb(c, a), b), Absorb(Absorb(c, a'), b'), tail);
    FoldIsRemainder(head + [a, b] + tail);
    FoldIsRemainder(head + [a', b'] + tail);
  }

  /** And so does changing a single byte of a key of any length. */
  lemma OneByteChange(head: bytes, a: byte, b: byte, tail: bytes)
    requires a != b
    ensures Remainder(head + [a] + tail) != Remainder(head + [b] + tail)
  {
    hide Absorb, Fold, Remainder;
    var c := Fold(Zero, head);
    FoldOne(head, a, tail);
    FoldOne(head, b, tail);
    FoldTogether(Absorb(c, a), Absorb(c, b), tail);
    ByteShows(c, a, b);
    FoldIsRemainder(head + [a] + tail);
    FoldIsRemainder(head + [b] + tail);
  }

  lemma ByteShows(c: Word, a: byte, b: byte)
    requires a != b
    ensures Absorb(c, a) != Absorb(c, b)
  {
    hide Step8, OctetOf, Xor, Xor8;
    var x, y := Xor(c, Top(OctetOf(a))), Xor(c, Top(OctetOf(b)));
    SameStep8(x, y);
    if x == y {
      LowHalvesAgree(c, c, OctetOf(a), OctetOf(b));
      OctetInjective(a, b);
    }
  }

  lemma FoldOne(head: bytes, a: byte, tail: bytes)
    ensures Fold(Zero, head + [a] + tail) == Fold(Absorb(Fold(Zero, head), a), tail)
  {
    hide Absorb;
    FoldAppend(Zero, head, [a] + tail);
    assert head + [a] + tail == head + ([a] + tail);
    assert ([a] + tail)[1..] == tail;
  }

  lemma FoldPair(head: bytes, a: byte, b: byte, tail: bytes)
    ensures Fold(Zero, head + [a, b] + tail) == Fold(Absorb(Absorb(Fold(Zero, head), a), b), tail)
  {
    hide Absorb;
    FoldAppend(Zero, head, [a, b] + tail);
    assert head + [a, b] + tail == head + ([a, b] + tail);
    var s, s1 := [a, b] + tail, [b] + tail;
    assert s[1..] == s1 && s1[1..] == tail;
  }

  lemma {:induction false} FoldAppend(c: Word, s: bytes, t: bytes)
    ensures Fold(c, s + t) == Fold(Fold(c, s), t)
    decreases |s|
  {
    hide Absorb;
    if s == [] {
      assert s + t == t;
    } else {
      assert (s + t)[1..] == s[1..] + t;
      FoldAppend(Absorb(c, s[0]), s[1..], t);
    }
  }
}
