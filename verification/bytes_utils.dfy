/** The byte codecs of groupcontrol's `util/BytesUtils.java`: little- and
    big-endian int and short packing, the 12-bit magic / 4-bit type word of the
    packet header, the hex dump used in logs and the dotted-quad printer. */
module BytesUtils {
  import opened JavaTypes
  import opened Decimal
  import opened Wrappers

  /** The unsigned value of bytes read least significant first. */
  function LittleEndian(b: bytes): (v: nat)
    decreases |b|
  {
    if |b| == 0 then 0 else b[0] + 0x100 * LittleEndian(b[1..])
  }

  /** The unsigned value of bytes read most significant first. */
  function BigEndian(b: bytes): (v: nat)
    decreases |b|
  {
    if |b| == 0 then 0 else BigEndian(b[..|b| - 1]) * 0x100 + b[|b| - 1]
  }

  lemma LittleEndian2(b: bytes)
    requires |b| == 2
    ensures LittleEndian(b) == b[0] as int + 0x100 * b[1] as int
  {
    var t := b[1..];
    assert t[1..] == [];
    assert LittleEndian(t) == t[0] as int + 0x100 * LittleEndian(t[1..]);
  }

  lemma LittleEndian4(b: bytes)
    requires |b| == 4
    ensures LittleEndian(b) == b[0] as int + 0x100 * (b[1] as int + 0x100 * (b[2] as int + 0x100 * b[3] as int))
  {
    var t := b[1..];
    LittleEndian2(t[1..]);
    assert LittleEndian(t) == t[0] as int + 0x100 * LittleEndian(t[1..]);
  }

  lemma BigEndian4(b: bytes)
    requires |b| == 4
    ensures BigEndian(b) == ((b[0] as int * 0x100 + b[1] as int) * 0x100 + b[2] as int) * 0x100 + b[3] as int
  {
    var p3 := b[..3];
    var p2 := p3[..2];
    var p1 := p2[..1];
    assert p1[..0] == [];
    assert BigEndian(p1) == p1[0];
    assert BigEndian(p2) == BigEndian(p1) * 0x100 + p2[1];
    assert BigEndian(p3) == BigEndian(p2) * 0x100 + p3[2];
  }

  /** The bytes of an unsigned 32-bit value, least significant first, taken
      the way `(value >> 8k) & 0xFF` takes them. */
  function LeBytes4(u: uint32): (r: bytes)
    ensures |r| == 4
    ensures LittleEndian(r) == u
  {
    var u1 := u / 0x100;
    var u2 := u1 / 0x100;
    var r := [u % 0x100, u1 % 0x100, u2 % 0x100, u2 / 0x100];
    LittleEndian4(r);
    r
  }

  /** `intToBytes`: four bytes, low byte first. */
  function IntToBytes(value: int32): (r: bytes)
    ensures |r| == 4
    ensures LittleEndian(r) == U32(value)
  {
    LeBytes4(U32(value))
  }

  /** `intToBytes2`: four bytes, high byte first. */
  function IntToBytes2(value: int32): (r: bytes)
    ensures |r| == 4
    ensures BigEndian(r) == U32(value)
  {
    var le := LeBytes4(U32(value));
    var r := [le[3], le[2], le[1], le[0]];
    LittleEndian4(le);
    BigEndian4(r);
    r
  }

  /** `shortToBytes`: two bytes, low byte first. */
  function ShortToBytes(value: int16): (r: bytes)
    ensures |r| == 2
    ensures LittleEndian(r) == U16(value)
  {
    var u := U16(value);
    var r := [u % 0x100, u / 0x100];
    LittleEndian2(r);
    r
  }

  /** `bytesToInt`: the four bytes at `offset`, low byte first, as a Java int. */
  function BytesToInt(src: bytes, offset: nat): (r: int32)
    requires offset + 4 <= |src|
    ensures U32(r) == LittleEndian(src[offset..offset + 4])
  {
    LittleEndian4(src[offset..offset + 4]);
    ToInt32(src[offset] as int + 0x100 * src[offset + 1] as int + 0x1_0000 * src[offset + 2] as int
      + 0x100_0000 * src[offset + 3] as int)
  }

  /** `bytesToInt2`: the four bytes at `offset`, high byte first. */
  function BytesToInt2(src: bytes, offset: nat): (r: int32)
    requires offset + 4 <= |src|
    ensures U32(r) == BigEndian(src[offset..offset + 4])
  {
    BigEndian4(src[offset..offset + 4]);
    ToInt32(0x100_0000 * src[offset] as int + 0x1_0000 * src[offset + 1] as int + 0x100 * src[offset + 2] as int
      + src[offset + 3] as int)
  }

  /** `bytesToShort`: the two bytes at `offset`, low byte first, as a Java short. */
  function BytesToShort(src: bytes, offset: nat): (r: int16)
    requires offset + 2 <= |src|
    ensures U16(r) == LittleEndian(src[offset..offset + 2])
  {
    LittleEndian2(src[offset..offset + 2]);
    ToInt16(src[offset] as int + 0x100 * src[offset + 1] as int)
  }

  lemma ShortRoundTrip(v: int16)
    ensures BytesToShort(ShortToBytes(v), 0) == v
  {
    var b := ShortToBytes(v);
    assert b[0..2] == b;
  }

  lemma IntRoundTrip(v: int32)
    ensures BytesToInt(IntToBytes(v), 0) == v
  {
    var b := IntToBytes(v);
    assert b[0..4] == b;
  }

  lemma IntBigEndianRoundTrip(v: int32)
    ensures BytesToInt2(IntToBytes2(v), 0) == v
  {
    var b := IntToBytes2(v);
    assert b[0..4] == b;
  }

  /** `magicTypeToBytes`: the magic's low 12 bits and the type's low 4 bits
      share one little-endian short, type in the top nibble. */
  function MagicTypeToBytes(magic: int16, ptype: int8): (r: bytes)
    ensures |r| == 2
    ensures LittleEndian(r) == U16(magic) % 0x1000 + 0x1000 * (U8(ptype) % 0x10)
  {
    var m := U16(magic);
    var lo, mid, t := m % 0x100, m / 0x100 % 0x10, U8(ptype) % 0x10;
    var r := [lo, mid + 0x10 * t];
    LittleEndian2(r);
    LowTwelve(m);
    r
  }

  /** The low 12 bits of `m` are its low byte and the low nibble of its
      high byte. */
  lemma LowTwelve(m: nat)
    ensures m % 0x1000 == m % 0x100 + 0x100 * (m / 0x100 % 0x10)
  {
    var q := m / 0x100;
    DivMod(q / 0x10, q % 0x10 * 0x100 + m % 0x100, 0x1000);
    assert m == (q / 0x10) * 0x1000 + (q % 0x10 * 0x100 + m % 0x100);
  }

  /** `bytesToType`: the top nibble of the second byte. */
  function BytesToType(src: bytes, offset: nat): (r: int8)
    requires offset + 2 <= |src|
    ensures 0 <= r < 0x10
    ensures r == LittleEndian(src[offset..offset + 2]) / 0x1000
  {
    LittleEndian2(src[offset..offset + 2]);
    src[offset + 1] / 0x10
  }

  /** `bytesToMagic`: the low 12 bits of the little-endian short. */
  function BytesToMagic(src: bytes, offset: nat): (r: int16)
    requires offset + 2 <= |src|
    ensures 0 <= r < 0x1000
    ensures r == LittleEndian(src[offset..offset + 2]) % 0x1000
  {
    LittleEndian2(src[offset..offset + 2]);
    src[offset] as int + 0x100 * (src[offset + 1] as int % 0x10)
  }

  /** Packing then unpacking keeps `magic & 0x0FFF` and `type & 0x0F`; the
      bits above those widths are discarded. */
  lemma MagicTypeRoundTrip(magic: int16, ptype: int8)
    ensures BytesToMagic(MagicTypeToBytes(magic, ptype), 0) == U16(magic) % 0x1000
    ensures BytesToType(MagicTypeToBytes(magic, ptype), 0) == U8(ptype) % 0x10
  {
    var b := MagicTypeToBytes(magic, ptype);
    assert b[0..2] == b;
    DivMod(U8(ptype) % 0x10, U16(magic) % 0x1000, 0x1000);
  }

  /** `asBytes`. */
  function AsBytes(b: uint8): (r: bytes)
    ensures |r| == 1 && r[0] == b
  {
    [b]
  }

  // ---- toHexStringForLog ----

  function HexDigit(d: int): (c: char)
    requires 0 <= d < 16
  {
    "0123456789abcdef"[d]
  }

  function HexValue(c: char): (d: int)
  {
    if '0' <= c <= '9' then c as int - '0' as int
    else if 'a' <= c <= 'f' then c as int - 'a' as int + 10
    else -1
  }

  /** `Integer.toHexString(b & 0xff)`: lower case, no leading zero. */
  function ToHexString(n: uint8): (s: string)
  {
    if n < 16 then [HexDigit(n)] else [HexDigit(n / 16), HexDigit(n % 16)]
  }

  /** One byte of the log line: the hex string and a space, padded with a
      leading '0' when that is only two characters long. */
  function ByteForLog(n: uint8): (s: string)
    ensures s == [HexDigit(n / 16), HexDigit(n % 16), ' ']
  {
    var t := ToHexString(n) + " ";
    if |t| == 2 then "0" + t else t
  }

  function HexLog(data: bytes): (s: string)
    ensures |s| == 3 * |data|
    decreases |data|
  {
    if |data| == 0 then "" else ByteForLog(data[0]) + HexLog(data[1..])
  }

  /** `toHexStringForLog`: null gives "", otherwise the bytes in order. */
  function ToHexStringForLog(data: Option<bytes>): (s: string)
    ensures data.None? ==> s == ""
    ensures data.Some? ==> |s| == 3 * |data.value|
  {
    match data
    case None => ""
    case Some(d) => HexLog(d)
  }

  /** Byte `i` of the input occupies characters `3i..3i+3` of the log line:
      two zero-padded lower-case hex digits and a space. */
  lemma {:induction false} HexLogAt(data: bytes, i: nat)
    requires i < |data|
    ensures HexLog(data)[3 * i..3 * i + 3] == [HexDigit(data[i] / 16), HexDigit(data[i] % 16), ' ']
    decreases i
  {
    var head, tail := ByteForLog(data[0]), HexLog(data[1..]);
    assert HexLog(data) == head + tail;
    if i == 0 {
      SliceShift(head, tail, 0, 3);
    } else {
      var j := i - 1;
      HexLogAt(data[1..], j);
      assert data[1..][j] == data[i];
      assert tail[3 * j..3 * j + 3] == [HexDigit(data[i] / 16), HexDigit(data[i] % 16), ' '];
      SliceShift(head, tail, 3 * i, 3 * i + 3);
      assert 3 * i - |head| == 3 * j;
    }
  }

  /** A slice of a concatenation that lies within one part is a slice of
      that part. */
  lemma SliceShift<T>(head: seq<T>, tail: seq<T>, lo: nat, hi: nat)
    requires lo <= hi <= |head| + |tail|
    ensures hi <= |head| ==> (head + tail)[lo..hi] == head[lo..hi]
    ensures |head| <= lo ==> (head + tail)[lo..hi] == tail[lo - |head|..hi - |head|]
  {
  }

  /** The log line determines the bytes: each pair of hex digits reads back
      as the byte it was printed from. */
  lemma HexLogReadsBack(data: bytes, i: nat)
    requires i < |data|
    ensures 16 * HexValue(HexLog(data)[3 * i]) + HexValue(HexLog(data)[3 * i + 1]) == data[i]
  {
    HexLogAt(data, i);
    var s := HexLog(data);
    var w := s[3 * i..3 * i + 3];
    assert s[3 * i] == w[0] && s[3 * i + 1] == w[1];
    HexDigitReadsBack(data[i] / 16);
    HexDigitReadsBack(data[i] % 16);
  }

  lemma HexDigitReadsBack(d: int)
    requires 0 <= d < 16
    ensures HexValue(HexDigit(d)) == d
  {
  }

  lemma HexLogInjective(a: bytes, b: bytes)
    requires HexLog(a) == HexLog(b)
    ensures a == b
  {
    assert |a| == |b|;
    forall i | 0 <= i < |a|
      ensures a[i] == b[i]
    {
      HexLogReadsBack(a, i);
      HexLogReadsBack(b, i);
    }
  }

  // ---- int2Ip ----

  /** `int2Ip`: `ip >>> 24`, `(ip & 0xFFFFFF) >>> 16`, `(ip & 0xFFFF) >>> 8`
      and `ip & 0xFF` in decimal, separated by dots. */
  function Int2Ip(ip: int32): (s: string)
  {
    var u := U32(ip);
    NatToString(u / 0x100_0000) + "." + NatToString(u % 0x100_0000 / 0x1_0000) + "."
      + NatToString(u % 0x1_0000 / 0x100) + "." + NatToString(u % 0x100)
  }

  /** The printed octets are the big-endian bytes of the int. */
  lemma Int2IpOctets(ip: int32)
    ensures var o := IntToBytes2(ip);
      Int2Ip(ip) == NatToString(o[0]) + "." + NatToString(o[1]) + "." + NatToString(o[2]) + "." + NatToString(o[3])
  {
    var u := U32(ip);
    var le := LeBytes4(u);
    LittleEndian4(le);
    Octets(le[0], le[1], le[2], le[3]);
  }

  /** An int read little-endian from `w` prints as `w` from last to
      first. */
  lemma Int2IpLittleEndian(ip: int32, w: bytes)
    requires |w| == 4 && U32(ip) == LittleEndian(w)
    ensures Int2Ip(ip) == NatToString(w[3]) + "." + NatToString(w[2]) + "." + NatToString(w[1]) + "." + NatToString(w[0])
  {
    LittleEndian4(w);
    Octets(w[0], w[1], w[2], w[3]);
  }

  /** The four bytes of a little-endian int are its octets, most
      significant taken from the top. */
  lemma Octets(b0: uint8, b1: uint8, b2: uint8, b3: uint8)
    ensures var u := b0 as int + 0x100 * (b1 as int + 0x100 * (b2 as int + 0x100 * b3 as int));
      && u / 0x100_0000 == b3 && u % 0x100_0000 / 0x1_0000 == b2
      && u % 0x1_0000 / 0x100 == b1 && u % 0x100 == b0
  {
    var u := b0 as int + 0x100 * (b1 as int + 0x100 * (b2 as int + 0x100 * b3 as int));
    var low3 := b0 as int + 0x100 * b1 as int + 0x1_0000 * b2 as int;
    var low2 := b0 as int + 0x100 * b1 as int;
    assert u == b3 as int * 0x100_0000 + low3;
    DivMod(b3 as int, low3, 0x100_0000);
    assert low3 == b2 as int * 0x1_0000 + low2;
    DivMod(b2 as int, low2, 0x1_0000);
    assert u == (b3 as int * 0x100 + b2 as int) * 0x1_0000 + low2;
    DivMod(b3 as int * 0x100 + b2 as int, low2, 0x1_0000);
    assert low2 == b1 as int * 0x100 + b0 as int;
    DivMod(b1 as int, b0 as int, 0x100);
    assert u == ((b3 as int * 0x100 + b2 as int) * 0x100 + b1 as int) * 0x100 + b0 as int;
    DivMod((b3 as int * 0x100 + b2 as int) * 0x100 + b1 as int, b0 as int, 0x100);
  }
}
