/** Parser locality: the answer depends on the consumed bytes alone, so a
    growing buffer can only turn "need more" into something else. */
module RespLocality {
  import opened Bytes
  import opened Resp

  lemma LineExtends(src: bytes, t: bytes)
    requires src != [] && src[0] != '\r'
    requires FirstLine(src).Some?
    ensures FirstLine(src + t) == FirstLine(src)
  {
    var i, j := FindCrlf(src, 0), FindCrlf(src + t, 0);
    assert CrlfAt(src + t, i);
    assert j <= i;
    assert CrlfAt(src, j);
    assert (src + t)[1..i] == src[1..i];
  }

  lemma LineTruncates(src: bytes, m: nat)
    requires src != [] && src[0] != '\r'
    requires FirstLine(src).Some? && FirstLine(src).value.len <= m <= |src|
    ensures FirstLine(src[..m]) == FirstLine(src)
  {
    var i, j := FindCrlf(src, 0), FindCrlf(src[..m], 0);
    assert CrlfAt(src[..m], i);
    assert j <= i;
    assert CrlfAt(src, j);
    assert src[..m][1..i] == src[1..i];
  }

  lemma BulkExtends(src: bytes, t: bytes)
    requires src != [] && src[0] == '$' && !ParseBulk(src).NeedMore?
    ensures ParseBulk(src + t) == ParseBulk(src)
  {
    LineExtends(src, t);
    var h := ParseHeader(src);
    if h.Number? && h.n >= 0 {
      assert (src + t)[h.len..h.len + h.n] == src[h.len..h.len + h.n];
    }
  }

  lemma {:induction false} ArrayExtends(src: bytes, t: bytes)
    requires src != [] && src[0] == '*' && !ParseArray(src).NeedMore?
    ensures ParseArray(src + t) == ParseArray(src)
    decreases |src|, 0
  {
    hide Parse, ParseItems;
    LineExtends(src, t);
    var h := ParseHeader(src);
    if h.Number? && h.n >= 0 {
      assert (src + t)[h.len..] == src[h.len..] + t;
      ItemsExtend(src[h.len..], h.n, t);
    }
  }

  /** A value or an error stays the same when bytes are appended. */
  lemma {:induction false} ParseExtends(src: bytes, t: bytes)
    requires !Parse(src).NeedMore?
    ensures Parse(src + t) == Parse(src)
    decreases |src|, 1
  {
    hide ParseArray, ParseItems, ParseBulk;
    assert (src + t)[0] == src[0];
    if src[0] == '+' || src[0] == '-' || src[0] == ':' {
      LineExtends(src, t);
    } else if src[0] == '$' {
      BulkExtends(src, t);
    } else if src[0] == '*' {
      ArrayExtends(src, t);
    }
  }

  lemma {:induction false} ItemsExtend(src: bytes, count: nat, t: bytes)
    requires !ParseItems(src, count).ItemsNeedMore?
    ensures ParseItems(src + t, count) == ParseItems(src, count)
    decreases |src|, 2
  {
    hide Parse, ParseArray;
    if count > 0 {
      ParseExtends(src, t);
      var p := Parse(src);
      if p.Frame? {
        assert (src + t)[p.consumed..] == src[p.consumed..] + t;
        ItemsExtend(src[p.consumed..], count - 1, t);
      }
    }
  }

  lemma BulkTruncates(src: bytes, m: nat)
    requires src != [] && src[0] == '$'
    requires ParseBulk(src).Frame? && ParseBulk(src).consumed <= m <= |src|
    ensures ParseBulk(src[..m]) == ParseBulk(src)
  {
    LineTruncates(src, m);
    var h := ParseHeader(src);
    if h.n >= 0 {
      assert src[..m][h.len..h.len + h.n] == src[h.len..h.len + h.n];
    }
  }

  lemma {:induction false} ArrayTruncates(src: bytes, m: nat)
    requires src != [] && src[0] == '*'
    requires ParseArray(src).Frame? && ParseArray(src).consumed <= m <= |src|
    ensures ParseArray(src[..m]) == ParseArray(src)
    decreases |src|, 0
  {
    hide Parse, ParseItems;
    LineTruncates(src, m);
    var h := ParseHeader(src);
    if h.n >= 0 {
      assert src[..m][h.len..] == src[h.len..][..m - h.len];
      ItemsTruncate(src[h.len..], h.n, m - h.len);
    }
  }

  /** A value stays the same when bytes behind it are cut off. */
  lemma {:induction false} ParseTruncates(src: bytes, m: nat)
    requires Parse(src).Frame? && Parse(src).consumed <= m <= |src|
    ensures Parse(src[..m]) == Parse(src)
    decreases |src|, 1
  {
    hide ParseArray, ParseItems, ParseBulk;
    assert src[..m][0] == src[0];
    if src[0] == '$' {
      BulkTruncates(src, m);
    } else if src[0] == '*' {
      ArrayTruncates(src, m);
    } else {
      LineTruncates(src, m);
    }
  }

  lemma {:induction false} ItemsTruncate(src: bytes, count: nat, m: nat)
    requires ParseItems(src, count).Items?
    requires ParseItems(src, count).consumed <= m <= |src|
    ensures ParseItems(src[..m], count) == ParseItems(src, count)
    decreases |src|, 2
  {
    hide Parse, ParseArray;
    if count > 0 {
      ParseTruncates(src, m);
      var n := Parse(src).consumed;
      assert src[..m][n..] == src[n..][..m - n];
      ItemsTruncate(src[n..], count - 1, m - n);
    }
  }

  /** A parsed value depends only on the bytes it consumed: any buffer that
      starts with those bytes gives the same value and the same count. */
  lemma FrameIsLocal(src: bytes, other: bytes)
    requires Parse(src).Frame?
    requires Parse(src).consumed <= |other|
    requires other[..Parse(src).consumed] == src[..Parse(src).consumed]
    ensures Parse(other) == Parse(src)
  {
    hide Parse;
    var n := Parse(src).consumed;
    ParseTruncates(src, n);
    ParseExtends(src[..n], other[n..]);
    assert src[..n] + other[n..] == other;
  }

  /** A proper prefix of a complete frame is never a frame and never an
      error: the reader waits. */
  lemma PrefixNeedsMore(frame: bytes, k: nat)
    requires Parse(frame).Frame? && Parse(frame).consumed == |frame|
    requires k < |frame|
    ensures Parse(frame[..k]) == NeedMore
  {
    hide Parse;
    assert frame[..k] + frame[k..] == frame;
    if Parse(frame[..k]) != NeedMore {
      ParseExtends(frame[..k], frame[k..]);
      assert false;
    }
  }

  // ------------------------------------------------------- progress, sizes

  /** Number of nodes of a value. */
  function Nodes(v: Value): nat {
    match v
    case Array(items) => 1 + NodesAll(items)
    case _ => 1
  }

  function NodesAll(vs: seq<Value>): nat {
    if vs == [] then 0 else Nodes(vs[0]) + NodesAll(vs[1..])
  }

  /** Every node of a parsed value costs at least three bytes of input. */
  lemma {:induction false} ParseProgress(src: bytes)
    requires Parse(src).Frame?
    ensures 3 * Nodes(Parse(src).value) <= Parse(src).consumed
    decreases |src|, 0
  {
    var h := if src[0] == '*' then ParseHeader(src) else NoLine;
    if h.Number? && h.n >= 0 {
      ItemsProgress(src[h.len..], h.n);
    }
  }

  lemma {:induction false} ItemsProgress(src: bytes, count: nat)
    requires ParseItems(src, count).Items?
    ensures 3 * NodesAll(ParseItems(src, count).values) <= ParseItems(src, count).consumed
    decreases |src|, 1
  {
    if count > 0 {
      ParseProgress(src);
      var n := Parse(src).consumed;
      ItemsProgress(src[n..], count - 1);
      var vs := ParseItems(src, count).values;
      assert vs[1..] == ParseItems(src[n..], count - 1).values;
    }
  }
}
