/** One frame on the wire, `packet/Packet.java`: the 8-byte header, a
    little-endian id word (bit 15 large, bit 14 ack, bit 13 response, low 13
    bits the message id), the sequence number, for large frames the fragment
    count and 1-based fragment index, then the body. */
module Packets {
  import opened JavaTypes
  import opened Wrappers
  import opened BytesUtils
  import opened PacketHeaders

  const MAX_SOCKET_SIZE: nat := 4096
  const MAX_SIZE: nat := MAX_SOCKET_SIZE - PacketHeaders.SIZE
  const LARGE_BIT: nat := 0x8000
  const ACK_BIT: nat := 0x4000
  const RESPONSE_BIT: nat := 0x2000
  const MSG_ID_RANGE: nat := 0x2000

  datatype Packet = Packet(
    header: PacketHeader,
    isLarge: bool,
    isAck: bool,
    isResponse: bool,
    msgId: int16,
    sn: int16,
    subCount: int16,
    subIndex: int16,
    body: bytes)

  /** The sub-header length: 4 bytes, or 8 with the fragment fields. */
  function SubHeaderSize(isLarge: bool): nat
  {
    if isLarge then 8 else 4
  }

  /** `new Packet.Builder(type, pid, vid, paddingSize)`: a header from the
      header Builder, no flags, no fragment fields, an empty body; msgId and
      sn keep Java's zero default until set. */
  function NewBuilder(ptype: int8, pid: int16, vid: int16, paddingSize: int16): (p: Packet)
    ensures p.header == DefaultBuilder().(ptype := ptype, pid := pid, vid := vid, paddingSize := paddingSize)
    ensures !p.isLarge && !p.isAck && !p.isResponse
    ensures p.msgId == 0 && p.sn == 0 && p.subCount == 0 && p.subIndex == 0 && p.body == []
  {
    Packet(PacketHeader(ptype, DEFAULT_MAGIC, pid, vid, paddingSize), false, false, false, 0, 0, 0, 0, [])
  }

  // ---- the id word ----

  predicate LargeOf(id: int16) { U16(id) / LARGE_BIT % 2 == 1 }
  predicate AckOf(id: int16) { U16(id) / ACK_BIT % 2 == 1 }
  predicate ResponseOf(id: int16) { U16(id) / RESPONSE_BIT % 2 == 1 }
  function MsgIdOf(id: int16): int16 { U16(id) % MSG_ID_RANGE }

  /** `getFullMsgId`: the three flags decode back from the word, and so does
      the message id masked to 13 bits. */
  function FullMsgId(p: Packet): (id: int16)
    ensures LargeOf(id) == p.isLarge
    ensures AckOf(id) == p.isAck
    ensures ResponseOf(id) == p.isResponse
    ensures MsgIdOf(id) == U16(p.msgId) % MSG_ID_RANGE
  {
    var l, a, r := if p.isLarge then 1 else 0, if p.isAck then 1 else 0, if p.isResponse then 1 else 0;
    var w := l * LARGE_BIT + a * ACK_BIT + r * RESPONSE_BIT + U16(p.msgId) % MSG_ID_RANGE;
    IdWord(l, a, r, U16(p.msgId) % MSG_ID_RANGE);
    Int16RoundTrip(w);
    ToInt16(w)
  }

  /** The id word keeps its three flag bits and the 13-bit id apart. */
  lemma IdWord(l: nat, a: nat, r: nat, id: nat)
    requires l < 2 && a < 2 && r < 2 && id < MSG_ID_RANGE
    ensures var w := l * LARGE_BIT + a * ACK_BIT + r * RESPONSE_BIT + id;
      && w < 0x1_0000
      && w / LARGE_BIT % 2 == l && w / ACK_BIT % 2 == a && w / RESPONSE_BIT % 2 == r
      && w % MSG_ID_RANGE == id
  {
    var w := l * LARGE_BIT + a * ACK_BIT + r * RESPONSE_BIT + id;
    assert w == l * LARGE_BIT + (a * ACK_BIT + r * RESPONSE_BIT + id);
    DivMod(l, a * ACK_BIT + r * RESPONSE_BIT + id, LARGE_BIT);
    DivMod(0, l, 2);
    assert w == (l * 2 + a) * ACK_BIT + (r * RESPONSE_BIT + id);
    DivMod(l * 2 + a, r * RESPONSE_BIT + id, ACK_BIT);
    DivMod(l, a, 2);
    assert w == ((l * 2 + a) * 2 + r) * RESPONSE_BIT + id;
    DivMod((l * 2 + a) * 2 + r, id, RESPONSE_BIT);
    DivMod(l * 2 + a, r, 2);
    assert MSG_ID_RANGE == RESPONSE_BIT;
  }

  /** Every field of the frame before the body, as `getBytes` writes it. */
  function Prefix(p: Packet): (r: bytes)
    ensures |r| == PacketHeaders.SIZE + SubHeaderSize(p.isLarge)
  {
    PacketHeaders.GetBytes(p.header) + ShortToBytes(FullMsgId(p)) + ShortToBytes(p.sn)
      + (if p.isLarge then ShortToBytes(p.subCount) + ShortToBytes(p.subIndex) else [])
  }

  /** `getBytes`: the frame is staged in a 4096-byte buffer and the first
      `paddingSize + 8` staged bytes are returned. A negative size is a
      NegativeArraySizeException, staging more than 4096 bytes a
      BufferOverflowException, asking for more than was staged a
      BufferUnderflowException; asking for fewer silently truncates. */
  function GetBytes(p: Packet): (r: Result<bytes>)
    ensures var n := p.header.paddingSize as int + PacketHeaders.SIZE;
      var written := |Prefix(p)| + |p.body|;
      && (r.Success? <==> 0 <= n <= written <= MAX_SOCKET_SIZE)
      && (n < 0 ==> r == Failure(NegativeArraySize))
      && (0 <= n && written > MAX_SOCKET_SIZE ==> r == Failure(BufferOverflow))
      && (0 <= n && written <= MAX_SOCKET_SIZE && n > written ==> r == Failure(BufferUnderflow))
      && (r.Success? ==> |r.value| == n && r.value == (Prefix(p) + p.body)[..n])
  {
    var n := p.header.paddingSize as int + PacketHeaders.SIZE;
    var staged := Prefix(p) + p.body;
    if n < 0 then Failure(NegativeArraySize)
    else if |staged| > MAX_SOCKET_SIZE then Failure(BufferOverflow)
    else if n > |staged| then Failure(BufferUnderflow)
    else Success(staged[..n])
  }

  /** `new Packet(raw)`: the header, the id word split into flags and a
      13-bit id, the sequence number, the fragment fields only for large
      frames (0 otherwise), and every remaining byte as the body. Reading
      past the end is an ArrayIndexOutOfBoundsException. */
  function Decode(raw: bytes): (r: Result<Packet>)
    ensures r.Success? <==> |raw| >= 12 && (LargeOf(BytesToShort(raw, 8)) ==> |raw| >= 16)
    ensures r.Success? ==> 0 <= r.value.msgId < MSG_ID_RANGE
    ensures r.Success? && !r.value.isLarge ==> r.value.subCount == 0 && r.value.subIndex == 0
    ensures r.Success? ==> r.value.isLarge == LargeOf(BytesToShort(raw, 8))
    ensures r.Success? ==>
      && PacketHeaders.SIZE + SubHeaderSize(r.value.isLarge) <= |raw|
      && r.value.body == raw[PacketHeaders.SIZE + SubHeaderSize(r.value.isLarge)..]
  {
    if |raw| < 12 then Failure(IndexOutOfBounds)
    else
      var header := Parse(raw, 0).value;
      var id := BytesToShort(raw, 8);
      var sn := BytesToShort(raw, 10);
      if LargeOf(id) then
        if |raw| < 16 then Failure(IndexOutOfBounds)
        else Success(Packet(header, true, AckOf(id), ResponseOf(id), MsgIdOf(id), sn,
          BytesToShort(raw, 12), BytesToShort(raw, 14), raw[16..]))
      else Success(Packet(header, false, AckOf(id), ResponseOf(id), MsgIdOf(id), sn, 0, 0, raw[12..]))
  }

  /** A frame is self-consistent when its paddingSize counts exactly the
      sub-header and body, its fields fit their widths, a non-large frame
      carries no fragment fields, and it fits the 4096-byte buffer. */
  predicate WellFormed(p: Packet)
  {
    && p.header.paddingSize as int == SubHeaderSize(p.isLarge) + |p.body|
    && 0 <= p.msgId < MSG_ID_RANGE
    && 0 <= p.header.magic <= MAGIC_MASK && 0 <= p.header.ptype <= TYPE_MASK
    && (!p.isLarge ==> p.subCount == 0 && p.subIndex == 0)
    && PacketHeaders.SIZE + SubHeaderSize(p.isLarge) + |p.body| <= MAX_SOCKET_SIZE
  }

  /** A well-formed frame encodes to exactly its staged bytes, so nothing is
      truncated. */
  lemma WellFormedEncodes(p: Packet)
    requires WellFormed(p)
    ensures GetBytes(p) == Success(Prefix(p) + p.body)
  {
    var staged := Prefix(p) + p.body;
    assert |staged| == p.header.paddingSize as int + PacketHeaders.SIZE <= MAX_SOCKET_SIZE;
    assert staged[..|staged|] == staged;
  }

  /** Decoding what `getBytes` produced gives back the frame. */
  lemma PacketRoundTrip(p: Packet)
    requires WellFormed(p)
    ensures GetBytes(p).Success? && Decode(GetBytes(p).value) == Success(p)
  {
    WellFormedEncodes(p);
    var hb := PacketHeaders.GetBytes(p.header);
    var id := FullMsgId(p);
    var ext := if p.isLarge then ShortToBytes(p.subCount) + ShortToBytes(p.subIndex) else [];
    DecodeLayout(hb, id, p.sn, ext, p.body);
    assert hb[0..8] == hb;
    HeaderRoundTrip(p.header);
    MsgIdRecovered(p.msgId, id);
    if p.isLarge {
      ShortFrom(ext, 0, p.subCount);
      ShortFrom(ext, 2, p.subIndex);
    }
  }

  /** What `new Packet(raw)` reads from bytes laid out as `getBytes` stages
      them: header, id word, sequence number, fragment fields, body. */
  lemma DecodeLayout(hb: bytes, id: int16, sn: int16, ext: bytes, body: bytes)
    requires |hb| == PacketHeaders.SIZE
    requires |ext| == if LargeOf(id) then 4 else 0
    ensures var raw := hb + ShortToBytes(id) + ShortToBytes(sn) + ext + body;
      && Decode(raw).Success?
      && Decode(raw).value == Packet(Parse(hb, 0).value, LargeOf(id), AckOf(id), ResponseOf(id), MsgIdOf(id), sn,
           if LargeOf(id) then BytesToShort(ext, 0) else 0, if LargeOf(id) then BytesToShort(ext, 2) else 0, body)
  {
    var ib, sb := ShortToBytes(id), ShortToBytes(sn);
    var front := hb + ib + sb + ext;
    var raw := front + body;
    assert raw[..|front|] == front && raw[|front|..] == body;
    assert raw[0..8] == hb[0..8];
    ParseLocal(raw, 0, hb, 0);
    ShortFrom(raw, 8, id);
    ShortFrom(raw, 10, sn);
    if LargeOf(id) {
      assert raw[12] == ext[0] && raw[13] == ext[1] && raw[14] == ext[2] && raw[15] == ext[3];
      assert raw[12..14] == ext[0..2] && raw[14..16] == ext[2..4];
    }
  }

  /** The short at `i` is `v` when the two bytes there are `v`'s. */
  lemma ShortFrom(b: bytes, i: nat, v: int16)
    requires i + 2 <= |b| && b[i] == ShortToBytes(v)[0] && b[i + 1] == ShortToBytes(v)[1]
    ensures BytesToShort(b, i) == v
  {
    assert b[i..i + 2] == ShortToBytes(v);
    ShortAt(b, i, v);
  }

  lemma MsgIdRecovered(msgId: int16, id: int16)
    requires 0 <= msgId < MSG_ID_RANGE && MsgIdOf(id) == U16(msgId) % MSG_ID_RANGE
    ensures MsgIdOf(id) == msgId
  {
  }

  /** Ids above 13 bits do not survive: only `msgId & 0x1FFF` comes back. */
  lemma MsgIdMasked(p: Packet)
    requires WellFormed(p.(msgId := 0))
    ensures GetBytes(p).Success?
    ensures Decode(GetBytes(p).value).Success?
    ensures Decode(GetBytes(p).value).value.msgId == U16(p.msgId) % MSG_ID_RANGE
  {
    var m := U16(p.msgId) % MSG_ID_RANGE;
    var q := p.(msgId := m);
    assert U16(q.msgId) % MSG_ID_RANGE == m;
    assert FullMsgId(q) == FullMsgId(p);
    assert WellFormed(q);
    assert Prefix(q) == Prefix(p);
    PacketRoundTrip(q);
  }
}
