/** The byte buffers that the Identity Mixer proofs hash, filled through a moving index. */
module Transcript {

  newtype byte = x: int | 0 <= x < 256

  const FIELD_BYTES: nat := 32
  const G1_BYTES: nat := 2 * FIELD_BYTES + 1
  const G2_BYTES: nat := 4 * FIELD_BYTES

  function Min(a: nat, b: nat): nat {
    if a < b then a else b
  }

  function Zeros(n: nat): (z: seq<byte>) {
    seq(n, _ => 0)
  }

  /** `copy(buf[index:], bytes)`: bytes that do not fit are dropped. */
  function Put(buf: seq<byte>, index: nat, bytes: seq<byte>): (r: seq<byte>)
    requires index <= |buf|
    ensures |r| == |buf|
  {
    var n := Min(|bytes|, |buf| - index);
    buf[..index] + bytes[..n] + buf[index + n..]
  }

  method AppendBytes(data: array<byte>, index: nat, bytes: seq<byte>) returns (next: nat)
    requires index <= data.Length
    modifies data
    ensures data[..] == Put(old(data[..]), index, bytes)
    ensures next == index + |bytes|
  {
    var n := Min(|bytes|, data.Length - index);
    for i := 0 to n
      invariant forall k :: 0 <= k < data.Length && !(index <= k < index + i) ==> data[k] == old(data[k])
      invariant forall k {:trigger data[k]} :: index <= k < index + i ==> data[k] == bytes[k - index]
    {
      data[index + i] := bytes[i];
    }
    next := index + |bytes|;
  }

  /** A buffer whose first |prefix| bytes are written and whose remaining bytes are still zero. */
  ghost function Partial(prefix: seq<byte>, size: nat): seq<byte>
    requires |prefix| <= size
  {
    prefix + Zeros(size - |prefix|)
  }

  /** Writing at the index that follows the written prefix extends that prefix. */
  lemma PutExtends(prefix: seq<byte>, size: nat, bytes: seq<byte>)
    requires |prefix| + |bytes| <= size
    ensures Put(Partial(prefix, size), |prefix|, bytes) == Partial(prefix + bytes, size)
  {
    var buf := Partial(prefix, size);
    assert buf[..|prefix|] == prefix;
    assert buf[|prefix| + |bytes|..] == Zeros(size - |prefix| - |bytes|);
  }

  lemma EmptyBuffer(size: nat)
    ensures Zeros(size) == Partial([], size)
  {
  }

  /** What a field of n bytes holds: longer contents are cut off, shorter ones padded with zeros. */
  ghost function Fit(bytes: seq<byte>, n: nat): (field: seq<byte>)
    ensures |field| == n
    ensures |bytes| == n ==> field == bytes
  {
    if |bytes| >= n then bytes[..n] else bytes + Zeros(n - |bytes|)
  }

  lemma FitBinds(a: seq<byte>, b: seq<byte>, n: nat)
    requires |a| == |b| <= n && Fit(a, n) == Fit(b, n)
    ensures a == b
  {
    assert a == Fit(a, n)[..|a|] && b == Fit(b, n)[..|a|];
  }

  /** The last item that is written behind a prefix fills the rest of the buffer. */
  lemma PutFits(prefix: seq<byte>, size: nat, bytes: seq<byte>)
    requires |prefix| <= size
    ensures Put(Partial(prefix, size), |prefix|, bytes) == prefix + Fit(bytes, size - |prefix|)
  {
    var buf := Partial(prefix, size);
    assert buf[..|prefix|] == prefix;
    if |bytes| < size - |prefix| {
      assert buf[|prefix| + |bytes|..] == Zeros(size - |prefix| - |bytes|);
    }
  }

  /** What is written next, at the end of the field, leaves the field alone. */
  lemma PutBehindField(prefix: seq<byte>, bytes: seq<byte>, n: nat, rest: seq<byte>)
    ensures Put(prefix + Fit(bytes, n + |rest|), |prefix| + n, rest) == prefix + Fit(bytes, n) + rest
  {
    var buf := prefix + Fit(bytes, n + |rest|);
    assert buf[..|prefix| + n] == prefix + Fit(bytes, n);
  }

  lemma PutTwice(buf: seq<byte>, index: nat, a: seq<byte>, b: seq<byte>)
    requires index + |a| + |b| <= |buf|
    ensures Put(Put(buf, index, a), index + |a|, b) == Put(buf, index, a + b)
  {
    assert Put(buf, index, a)[..index + |a|] == buf[..index] + a;
  }

  /** A field of n bytes behind a prefix, and two more items behind the field, fill the buffer. */
  lemma FieldLayout(prefix: seq<byte>, size: nat, bytes: seq<byte>, n: nat, a: seq<byte>, b: seq<byte>)
    requires size == |prefix| + n + |a| + |b|
    ensures Put(Put(Put(Partial(prefix, size), |prefix|, bytes), |prefix| + n, a), |prefix| + n + |a|, b)
            == prefix + Fit(bytes, n) + a + b
  {
    hide *;
    PutFits(prefix, size, bytes);
    PutTwice(prefix + Fit(bytes, size - |prefix|), |prefix| + n, a, b);
    assert |a + b| == |a| + |b|;
    PutBehindField(prefix, bytes, n, a + b);
    assert prefix + Fit(bytes, n) + (a + b) == prefix + Fit(bytes, n) + a + b;
  }

  /** Concatenations that agree, with heads of one length, agree part by part. */
  lemma SplitHead(a: seq<byte>, b: seq<byte>, a': seq<byte>, b': seq<byte>)
    requires a + b == a' + b' && |a| == |a'|
    ensures a == a' && b == b'
  {
    assert a == (a + b)[..|a|] && a' == (a' + b')[..|a|];
    assert b == (a + b)[|a|..] && b' == (a' + b')[|a|..];
  }

  /** Three items of known length behind a label bind; the two behind them bind as one. */
  lemma ThreeItemsBind(tag: seq<byte>, a: seq<byte>, b: seq<byte>, c: seq<byte>, d: seq<byte>, e: seq<byte>,
                       a': seq<byte>, b': seq<byte>, c': seq<byte>, d': seq<byte>, e': seq<byte>)
    requires |a| == |a'| && |b| == |b'| && |c| == |c'|
    requires tag + a + b + c + d + e == tag + a' + b' + c' + d' + e'
    ensures a == a' && b == b' && c == c' && d + e == d' + e'
  {
    var s, s' := tag + a + b + c, tag + a' + b' + c';
    assert s + d + e == s + (d + e) && s' + d' + e' == s' + (d' + e');
    SplitHead(s, d + e, s', d' + e');
    SplitHead(tag + a + b, c, tag + a' + b', c');
    SplitHead(tag + a, b, tag + a', b');
    SplitHead(tag, a, tag, a');
  }
}
