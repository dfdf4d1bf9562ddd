/** The long codec of remotedisplay's `utils/BytesUtils.java`: eight bytes,
    most significant first, through a `ByteBuffer`. Its int codec and
    `asBytes` are the same as groupcontrol's (`BytesUtils.IntToBytes2`,
    `BytesUtils.BytesToInt2`, `BytesUtils.AsBytes`). */
module RemoteBytes {
  import opened JavaTypes
  import opened Wrappers
  import opened BytesUtils

  /** The bytes of an unsigned 64-bit value, most significant first. */
  function BeBytes(u: nat, n: nat): (r: bytes)
    ensures |r| == n
    ensures u < Pow256(n) ==> BigEndian(r) == u
    decreases n
  {
    if n == 0 then []
    else
      var r := BeBytes(u / 0x100, n - 1) + [u % 0x100];
      assert r[..|r| - 1] == BeBytes(u / 0x100, n - 1);
      r
  }

  function Pow256(n: nat): (p: nat)
    ensures p > 0
  {
    if n == 0 then 1 else 0x100 * Pow256(n - 1)
  }

  /** A big-endian reading of `n` bytes is below `256^n`. */
  lemma {:induction false} BigEndianBound(b: bytes)
    ensures BigEndian(b) < Pow256(|b|)
    decreases |b|
  {
    if |b| > 0 {
      BigEndianBound(b[..|b| - 1]);
    }
  }

  /** `longToBytes`: `putLong` writes big-endian. */
  function LongToBytes(value: int64): (r: bytes)
    ensures |r| == 8
    ensures BigEndian(r) == U64(value)
  {
    assert Pow256(8) == 0x1_0000_0000_0000_0000;
    BeBytes(U64(value), 8)
  }

  /** `bytesToLong`: `put(src, offset, 8)` throws an
      IndexOutOfBoundsException unless eight bytes start at `offset`;
      `getLong` reads them big-endian. */
  function BytesToLong(src: bytes, offset: int): (r: Result<int64>)
    ensures r.Success? <==> 0 <= offset && offset + 8 <= |src|
    ensures r.Failure? ==> r.error == IndexOutOfBounds
    ensures r.Success? ==> U64(r.value) == BigEndian(src[offset..offset + 8])
  {
    if offset < 0 || offset + 8 > |src| then Failure(IndexOutOfBounds)
    else
      var w := src[offset..offset + 8];
      BigEndianBound(w);
      assert Pow256(8) == 0x1_0000_0000_0000_0000;
      Success(ToInt64(BigEndian(w)))
  }

  /** Every long survives the round trip through its eight bytes. */
  lemma LongRoundTrip(v: int64)
    ensures BytesToLong(LongToBytes(v), 0) == Success(v)
  {
    var b := LongToBytes(v);
    assert b[0..8] == b;
  }

  /** Eight bytes survive the round trip through the long they encode. */
  lemma {:induction false} BytesRoundTrip(b: bytes)
    requires |b| == 8
    ensures LongToBytes(BytesToLong(b, 0).value) == b
  {
    assert b[0..8] == b;
    BigEndianBound(b);
    assert Pow256(8) == 0x1_0000_0000_0000_0000;
    BigEndianInjective(LongToBytes(BytesToLong(b, 0).value), b);
  }

  /** Two byte strings of one length with the same big-endian value are
      equal. */
  lemma {:induction false} BigEndianInjective(a: bytes, b: bytes)
    requires |a| == |b| && BigEndian(a) == BigEndian(b)
    ensures a == b
    decreases |a|
  {
    if |a| > 0 {
      var n := |a| - 1;
      BigEndianBound(a[..n]);
      BigEndianBound(b[..n]);
      assert a[n] == BigEndian(a) % 0x100 && b[n] == BigEndian(b) % 0x100;
      assert BigEndian(a[..n]) == BigEndian(a) / 0x100;
      assert BigEndian(b[..n]) == BigEndian(b) / 0x100;
      BigEndianInjective(a[..n], b[..n]);
      assert a == a[..n] + [a[n]] && b == b[..n] + [b[n]];
    }
  }
}
