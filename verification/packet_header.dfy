/** The 8-byte frame header of `packet/PacketHeader.java`: a little-endian
    short holding the 4-bit type above the 12-bit magic, then pid, vid and
    paddingSize as little-endian shorts. paddingSize counts the bytes that
    follow the header. */
module PacketHeaders {
  import opened JavaTypes
  import opened Wrappers
  import opened BytesUtils

  const SIZE: nat := 8
  const MAGIC_MASK: int := 0x0FFF
  const DEFAULT_MAGIC: int16 := 0x534
  const TYPE_MASK: int := 0x0F
  const TYPE_CTRL: int8 := 0
  const TYPE_ACK: int8 := 1
  const TYPE_HEART: int8 := 2
  const TYPE_DATA: int8 := 3

  datatype PacketHeader = PacketHeader(ptype: int8, magic: int16, pid: int16, vid: int16, paddingSize: int16)

  /** The no-argument constructor: an ACK header with magic 0. */
  function EmptyHeader(): (h: PacketHeader)
    ensures h.ptype == TYPE_ACK && h.magic == 0 && h.pid == 0 && h.vid == 0 && h.paddingSize == 0
  {
    PacketHeader(TYPE_ACK, 0, 0, 0, 0)
  }

  /** `new PacketHeader.Builder()`: ACK, the default magic, zero elsewhere. */
  function DefaultBuilder(): (h: PacketHeader)
    ensures h.ptype == TYPE_ACK && h.magic == DEFAULT_MAGIC && h.pid == 0 && h.vid == 0 && h.paddingSize == 0
  {
    PacketHeader(TYPE_ACK, DEFAULT_MAGIC, 0, 0, 0)
  }

  /** The four-argument constructor: the default magic and the given fields. */
  function NewHeader(ptype: int8, pid: int16, vid: int16, paddingSize: int16): (h: PacketHeader)
    ensures h.magic == DEFAULT_MAGIC
    ensures h.ptype == ptype && h.pid == pid && h.vid == vid && h.paddingSize == paddingSize
  {
    PacketHeader(ptype, DEFAULT_MAGIC, pid, vid, paddingSize)
  }

  /** A receiver accepts a header only when its magic, masked to 12 bits, is
      the default magic. */
  predicate HasValidMagic(h: PacketHeader)
  {
    U16(h.magic) % 0x1000 == DEFAULT_MAGIC
  }

  /** The Builder's magic is accepted; the no-argument constructor's is not. */
  lemma ConstructorMagic(ptype: int8, pid: int16, vid: int16, paddingSize: int16)
    ensures HasValidMagic(DefaultBuilder())
    ensures HasValidMagic(NewHeader(ptype, pid, vid, paddingSize))
    ensures !HasValidMagic(EmptyHeader())
  {
  }

  /** `getBytes`. */
  function GetBytes(h: PacketHeader): (r: bytes)
    ensures |r| == SIZE
    ensures r[..2] == MagicTypeToBytes(h.magic, h.ptype)
    ensures LittleEndian(r[2..4]) == U16(h.pid)
    ensures LittleEndian(r[4..6]) == U16(h.vid)
    ensures LittleEndian(r[6..8]) == U16(h.paddingSize)
  {
    var r := MagicTypeToBytes(h.magic, h.ptype) + ShortToBytes(h.pid) + ShortToBytes(h.vid) + ShortToBytes(h.paddingSize);
    assert r[2..4] == ShortToBytes(h.pid);
    assert r[4..6] == ShortToBytes(h.vid);
    assert r[6..8] == ShortToBytes(h.paddingSize);
    r
  }

  /** `parse(data, index)`: reading past the end of `data` is an
      ArrayIndexOutOfBoundsException. */
  function Parse(data: bytes, index: int): (r: Result<PacketHeader>)
    ensures r.Success? <==> 0 <= index && index + SIZE <= |data|
    ensures r.Success? ==> 0 <= r.value.ptype < 0x10 && 0 <= r.value.magic < 0x1000
  {
    if index < 0 || index + SIZE > |data| then Failure(IndexOutOfBounds)
    else Success(PacketHeader(
      BytesToType(data, index),
      BytesToMagic(data, index),
      BytesToShort(data, index + 2),
      BytesToShort(data, index + 4),
      BytesToShort(data, index + 6)))
  }

  /** A header whose magic fits 12 bits and whose type fits 4 bits survives
      encoding and parsing unchanged. */
  lemma HeaderRoundTrip(h: PacketHeader)
    requires 0 <= h.magic <= MAGIC_MASK && 0 <= h.ptype <= TYPE_MASK
    ensures Parse(GetBytes(h), 0) == Success(h)
  {
    HeaderRoundTripMasked(h);
    assert U16(h.magic) % 0x1000 == h.magic && U8(h.ptype) % 0x10 == h.ptype;
  }

  /** Outside those ranges the extra bits are lost: parsing gives back the
      magic masked to 12 bits and the type masked to 4 bits. */
  lemma HeaderRoundTripMasked(h: PacketHeader)
    ensures Parse(GetBytes(h), 0).Success?
    ensures Parse(GetBytes(h), 0).value == h.(magic := U16(h.magic) % 0x1000, ptype := U8(h.ptype) % 0x10)
  {
    var b := GetBytes(h);
    MagicTypeRoundTrip(h.magic, h.ptype);
    assert b[0..2] == MagicTypeToBytes(h.magic, h.ptype);
    ShortAt(b, 2, h.pid);
    ShortAt(b, 4, h.vid);
    ShortAt(b, 6, h.paddingSize);
  }

  /** A short written little-endian at `i` reads back. */
  lemma ShortAt(b: bytes, i: nat, v: int16)
    requires i + 2 <= |b| && LittleEndian(b[i..i + 2]) == U16(v)
    ensures BytesToShort(b, i) == v
  {
    Int16RoundTrip(U16(v));
  }

  /** `parse` reads only the eight bytes at `index`. */
  lemma ParseLocal(data: bytes, index: nat, other: bytes, j: nat)
    requires index + SIZE <= |data| && j + SIZE <= |other|
    requires data[index..index + SIZE] == other[j..j + SIZE]
    ensures Parse(data, index) == Parse(other, j)
  {
    SubWindow(data, index, other, j, SIZE, 0, 2);
    SubWindow(data, index, other, j, SIZE, 2, 4);
    SubWindow(data, index, other, j, SIZE, 4, 6);
    SubWindow(data, index, other, j, SIZE, 6, 8);
    assert data[index] == other[j] && data[index + 1] == other[j + 1];
  }

  /** Equal windows agree on every sub-window. */
  lemma SubWindow(a: bytes, i: nat, b: bytes, j: nat, n: nat, lo: nat, hi: nat)
    requires i + n <= |a| && j + n <= |b| && a[i..i + n] == b[j..j + n]
    requires lo <= hi <= n
    ensures a[i + lo..i + hi] == b[j + lo..j + hi]
  {
    var w := a[i..i + n];
    var x, y := a[i + lo..i + hi], b[j + lo..j + hi];
    forall k | 0 <= k < |x|
      ensures x[k] == y[k]
    {
      assert x[k] == w[lo + k] == b[j..j + n][lo + k] == y[k];
    }
  }
}
