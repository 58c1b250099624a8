/** Hash slots: which part of a key is hashed, and the slot it falls into. */
module Slot {
  import opened Bytes
  import opened Words
  import opened Crc16

  const HASH_SLOTS: nat := 16384

  /** First position of c at or after `from`, or |s|. */
  function Find(s: bytes, c: byte, from: nat): (r: nat)
    requires from <= |s|
    ensures from <= r <= |s|
    ensures r < |s| ==> s[r] == c
    ensures forall j :: from <= j < r ==> s[j] != c
    decreases |s| - from
  {
    if from == |s| || s[from] == c then from else Find(s, c, from + 1)
  }

  /** `extract_hashtag`: what stands between the first brace and the next closing
      brace, unless that is empty or missing. */
  function ExtractHashtag(key: bytes): bytes {
    var start := Find(key, '{', 0);
    if start == |key| then key else
    var end := Find(key, '}', start + 1);
    if end < |key| && end > start + 1 then key[start + 1..end] else key
  }

  /** `key_slot`. */
  method KeySlot(key: bytes) returns (slot: nat)
    ensures slot == SlotOf(key)
  {
    hide And, Nat, Remainder;
    var crc := Crc16.Compute(ExtractHashtag(key));
    slot := Nat(And(crc, Hex(3, F, F, F)));
  }

  function SlotOf(key: bytes): nat {
    Nat(And(Remainder(ExtractHashtag(key)), Hex(3, F, F, F)))
  }

  /** Masking with 16383 is the remainder by 16384: every key has a slot. */
  lemma SlotInRange(key: bytes)
    ensures SlotOf(key) == Nat(Remainder(ExtractHashtag(key))) % HASH_SLOTS < HASH_SLOTS
  {
    hide Remainder, ExtractHashtag, Nat8, And8, Hex;
    var w := Remainder(ExtractHashtag(key));
    Masks(w.lo);
    TopMasked(w.hi);
    TopMasked(w.lo);
    LowFourteen(Nat8(w.hi), Nat8(w.lo));
  }

  lemma LowFourteen(h: nat, l: nat)
    requires h < 256 && l < 256
    ensures (256 * h + l) % 16384 == 256 * (h % 64) + l
  {
  }

  lemma TopMasked(o: Octet)
    ensures Nat8(And8(o, Hex(3, F, F, F).hi)) == Nat8(o) % 64
    ensures Hex(3, F, F, F).lo == Ones8 && Nat8(o) < 256
  {
  }

  /** A key in the form prefix{tag}suffix, with no earlier brace. */
  ghost predicate Tagged(key: bytes, prefix: bytes, tag: bytes, suffix: bytes) {
    && key == prefix + "{" + tag + "}" + suffix
    && '{' !in prefix && '}' !in tag && tag != []
  }

  /** Every key with the same tag is hashed by that tag alone. */
  lemma TagDecides(key: bytes, prefix: bytes, tag: bytes, suffix: bytes)
    requires Tagged(key, prefix, tag, suffix)
    ensures ExtractHashtag(key) == tag
  {
    var start, end := |prefix|, |prefix| + 1 + |tag|;
    assert key[start] == '{' && key[end] == '}';
    assert forall j :: 0 <= j < start ==> key[j] == prefix[j];
    assert forall j :: start < j < end ==> key[j] == tag[j - start - 1];
    assert Find(key, '{', 0) == start && Find(key, '}', start + 1) == end;
    assert key[start + 1..end] == tag;
  }

  /** Only a key of that form is not hashed whole. */
  lemma TagOf(key: bytes) returns (prefix: bytes, suffix: bytes)
    requires ExtractHashtag(key) != key
    ensures Tagged(key, prefix, ExtractHashtag(key), suffix)
  {
    var start := Find(key, '{', 0);
    var end := Find(key, '}', start + 1);
    prefix, suffix := key[..start], key[end + 1..];
    var tag := key[start + 1..end];
    assert key[..end] == prefix + "{" + tag;
    assert key == key[..end] + "}" + suffix;
  }

  /** Extracting twice is extracting once, so a tag's slot is its keys' slot. */
  lemma HashtagIdempotent(key: bytes)
    ensures ExtractHashtag(ExtractHashtag(key)) == ExtractHashtag(key)
    ensures SlotOf(ExtractHashtag(key)) == SlotOf(key)
  {
    hide And, Nat, Remainder;
    var tag := ExtractHashtag(key);
    if tag != key {
      assert forall j :: 0 <= j < |tag| ==> tag[j] != '}';
    }
  }

  /** Co-location: keys that share a tag share a slot. */
  lemma SameTagSameSlot(k1: bytes, p1: bytes, s1: bytes, k2: bytes, p2: bytes, s2: bytes, tag: bytes)
    requires Tagged(k1, p1, tag, s1) && Tagged(k2, p2, tag, s2)
    ensures SlotOf(k1) == SlotOf(k2) == SlotOf(tag)
  {
    hide And, Nat, Remainder;
    TagDecides(k1, p1, tag, s1);
    TagDecides(k2, p2, tag, s2);
    HashtagIdempotent(k1);
  }
}
