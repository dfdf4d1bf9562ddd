/** The CRC-16 of groupcontrol's `util/CrcUtils.java`: a bitwise register over
    the ITU-T V.41 polynomial 0x1021, fed most significant bit first. Type 1
    is XMODEM (register starts at 0), type 3 is CCITT-FALSE (starts at
    0xFFFF) and type 2 is KERMIT (input bytes and result bit-reflected), the
    one the message layer uses. Any other type behaves like type 1.

    The source keeps the register in a Java `int` and shifts it left without
    masking. Bit 15 and the XOR with the polynomial only ever involve the low
    16 bits, and the result is masked with 0xFFFF (or reflected as a `short`),
    so the register is modelled as a `bv16`. */
module CrcUtils {
  import opened JavaTypes
  import opened Wrappers

  const CRC16_BUF_MIN_SIZE: nat := 3
  const CRC16_XMODEM: int := 1
  const CRC16_CCITT: int := 2
  const CRC16_CCITT_FALSE: int := 3
  const POLYNOMIAL: bv16 := 0x1021
  /** The polynomial with its 16 bits in reverse order. */
  const POLYNOMIAL_REFLECTED: bv16 := 0x8408

  // ---- bit reversal ----

  /** Bit `i` of `x` moved to bit `7 - i`. */
  function Reverse8(x: bv8): bv8
  {
    ((x & 0x01) << 7) | ((x & 0x02) << 5) | ((x & 0x04) << 3) | ((x & 0x08) << 1)
    | ((x & 0x10) >> 1) | ((x & 0x20) >> 3) | ((x & 0x40) >> 5) | ((x & 0x80) >> 7)
  }

  /** `reversalShort` on the bit pattern of a Java short: bit `i` of `x`
      moved to bit `15 - i`. */
  function Reverse16(x: bv16): bv16
  {
    ((x & 0x0001) << 15) | ((x & 0x0002) << 13) | ((x & 0x0004) << 11) | ((x & 0x0008) << 9)
    | ((x & 0x0010) << 7) | ((x & 0x0020) << 5) | ((x & 0x0040) << 3) | ((x & 0x0080) << 1)
    | ((x & 0x0100) >> 1) | ((x & 0x0200) >> 3) | ((x & 0x0400) >> 5) | ((x & 0x0800) >> 7)
    | ((x & 0x1000) >> 9) | ((x & 0x2000) >> 11) | ((x & 0x4000) >> 13) | ((x & 0x8000) >> 15)
  }

  lemma Reverse8Involution(x: bv8)
    ensures Reverse8(Reverse8(x)) == x
  {
  }

  lemma Reverse16Involution(x: bv16)
    ensures Reverse16(Reverse16(x)) == x
  {
  }

  /** `reversalByte` on the bit pattern of a Java byte: for each set bit `i`
      it sets bit `7 - i` of the result. */
  method ReversalByte(data: bv8) returns (r: bv8)
    ensures r == Reverse8(data)
  {
    r := 0;
    var i: bv8 := 0;
    while i < 8
      invariant i <= 8
      invariant r == Reverse8(data & (((1 as bv16) << i) - 1) as bv8)
      decreases 8 - i
    {
      if data & ((1 as bv8) << i) != 0 {
        r := r | ((1 as bv8) << (7 - i));
      }
      i := i + 1;
    }
  }

  // ---- the register ----

  function Bit8(b: bv8, k: nat): bool
    requires k < 8
  {
    b & Mask8(k) != 0
  }

  /** The byte with only bit `k` set. */
  function Mask8(k: nat): bv8
    requires k < 8
  {
    match k
    case 0 => 0x01 case 1 => 0x02 case 2 => 0x04 case 3 => 0x08
    case 4 => 0x10 case 5 => 0x20 case 6 => 0x40 case _ => 0x80
  }

  /** One bit into the register: shift left and add the polynomial when the
      bit leaving at position 15 differs from the input bit. */
  function Step(crc: bv16, bit: bool): bv16
  {
    var c15 := (crc >> 15) & 1 == 1;
    var shifted := crc << 1;
    if c15 != bit then shifted ^ POLYNOMIAL else shifted
  }

  /** One byte, most significant bit first. */
  function ByteStep(crc: bv16, b: bv8): bv16
  {
    var c1 := Step(crc, Bit8(b, 7));
    var c2 := Step(c1, Bit8(b, 6));
    var c3 := Step(c2, Bit8(b, 5));
    var c4 := Step(c3, Bit8(b, 4));
    var c5 := Step(c4, Bit8(b, 3));
    var c6 := Step(c5, Bit8(b, 2));
    var c7 := Step(c6, Bit8(b, 1));
    Step(c7, Bit8(b, 0))
  }

  /** The register after the bytes in order, each reflected first when
      `reflect` holds. */
  function Register(crc: bv16, data: bytes, reflect: bool): bv16
    decreases |data|
  {
    if |data| == 0 then crc
    else
      var b := if reflect then Reverse8(data[0] as bv8) else data[0] as bv8;
      Register(ByteStep(crc, b), data[1..], reflect)
  }

  /** `crc16Ccitt`. */
  function Crc16(crcType: int, data: bytes): (r: uint16)
  {
    var init: bv16 := if crcType == CRC16_CCITT_FALSE then 0xFFFF else 0;
    var reg := Register(init, data, crcType == CRC16_CCITT);
    (if crcType == CRC16_CCITT then Reverse16(reg) else reg) as int
  }

  // ---- the reflected reference ----

  /** One bit into a reflected register: shift right and add the reflected
      polynomial when the bit leaving at position 0 differs from the input. */
  function ReflectedStep(crc: bv16, bit: bool): bv16
  {
    var c0 := crc & 1 == 1;
    var shifted := crc >> 1;
    if c0 != bit then shifted ^ POLYNOMIAL_REFLECTED else shifted
  }

  /** One byte, least significant bit first. */
  function ReflectedByteStep(crc: bv16, b: bv8): bv16
  {
    var c1 := ReflectedStep(crc, Bit8(b, 0));
    var c2 := ReflectedStep(c1, Bit8(b, 1));
    var c3 := ReflectedStep(c2, Bit8(b, 2));
    var c4 := ReflectedStep(c3, Bit8(b, 3));
    var c5 := ReflectedStep(c4, Bit8(b, 4));
    var c6 := ReflectedStep(c5, Bit8(b, 5));
    var c7 := ReflectedStep(c6, Bit8(b, 6));
    ReflectedStep(c7, Bit8(b, 7))
  }

  /** CRC-16/KERMIT the way it is usually written: a right-shifting register
      with the reflected polynomial, no byte reflection. */
  function Kermit(crc: bv16, data: bytes): bv16
    decreases |data|
  {
    if |data| == 0 then crc else Kermit(ReflectedByteStep(crc, data[0] as bv8), data[1..])
  }

  lemma StepMirror(k: bv16, bit: bool)
    ensures Step(Reverse16(k), bit) == Reverse16(ReflectedStep(k, bit))
  {
    ReverseTopBit(k);
    ReverseShift(k);
    ReverseXor(k >> 1, POLYNOMIAL_REFLECTED);
    assert Reverse16(POLYNOMIAL_REFLECTED) == POLYNOMIAL;
  }

  lemma ReverseTopBit(k: bv16)
    ensures (Reverse16(k) >> 15) & 1 == k & 1
  {
  }

  lemma ReverseShift(k: bv16)
    ensures Reverse16(k) << 1 == Reverse16(k >> 1)
  {
  }

  lemma ReverseXor(a: bv16, b: bv16)
    ensures Reverse16(a ^ b) == Reverse16(a) ^ Reverse16(b)
  {
  }

  lemma BitMirror(b: bv8, k: nat)
    requires k < 8
    ensures Bit8(Reverse8(b), 7 - k) == Bit8(b, k)
  {
  }

  /** A reflected byte through the left-shifting register is the mirror image
      of the byte through the right-shifting one. */
  lemma ByteStepMirror(k: bv16, b: bv8)
    ensures ByteStep(Reverse16(k), Reverse8(b)) == Reverse16(ReflectedByteStep(k, b))
  {
    var rb := Reverse8(b);
    BitMirror(b, 0); BitMirror(b, 1); BitMirror(b, 2); BitMirror(b, 3);
    BitMirror(b, 4); BitMirror(b, 5); BitMirror(b, 6); BitMirror(b, 7);
    var k1 := ReflectedStep(k, Bit8(b, 0));
    var k2 := ReflectedStep(k1, Bit8(b, 1));
    var k3 := ReflectedStep(k2, Bit8(b, 2));
    var k4 := ReflectedStep(k3, Bit8(b, 3));
    var k5 := ReflectedStep(k4, Bit8(b, 4));
    var k6 := ReflectedStep(k5, Bit8(b, 5));
    var k7 := ReflectedStep(k6, Bit8(b, 6));
    StepMirror(k, Bit8(b, 0));
    StepMirror(k1, Bit8(b, 1));
    StepMirror(k2, Bit8(b, 2));
    StepMirror(k3, Bit8(b, 3));
    StepMirror(k4, Bit8(b, 4));
    StepMirror(k5, Bit8(b, 5));
    StepMirror(k6, Bit8(b, 6));
    StepMirror(k7, Bit8(b, 7));
  }

  lemma {:induction false} RegisterMirror(k: bv16, data: bytes)
    ensures Register(Reverse16(k), data, true) == Reverse16(Kermit(k, data))
    decreases |data|
  {
    if |data| > 0 {
      ByteStepMirror(k, data[0] as bv8);
      RegisterMirror(ReflectedByteStep(k, data[0] as bv8), data[1..]);
    }
  }

  /** Type 2 is CRC-16/KERMIT: reflecting every input byte and the result of
      the MSB-first register equals the LSB-first register with the reflected
      polynomial. */
  lemma Crc16IsKermit(data: bytes)
    ensures Crc16(CRC16_CCITT, data) == Kermit(0, data) as int
  {
    RegisterMirror(0, data);
    Reverse16Involution(Kermit(0, data));
  }

  // ---- framing with a trailing checksum ----

  /** A checksum as two bytes, low byte first. */
  function CrcTail(c: uint16): (r: bytes)
    ensures |r| == 2 && TailValue(r[0], r[1]) == c
  {
    [c % 0x100, c / 0x100]
  }

  /** `(lo & 0xff) | ((hi & 0xff) << 8)`. */
  function TailValue(lo: uint8, hi: uint8): (c: uint16)
  {
    lo as int + 0x100 * hi as int
  }

  lemma TailOfValue(lo: uint8, hi: uint8)
    ensures CrcTail(TailValue(lo, hi)) == [lo, hi]
  {
  }

  /** `getCrc16Bytes`: null gives an empty array, an empty array is returned
      as is, anything else gets the checksum appended low byte first. */
  function GetCrc16Bytes(buf: Option<bytes>, crcType: int): (r: bytes)
    ensures buf.None? ==> r == []
    ensures buf.Some? && |buf.value| == 0 ==> r == []
    ensures buf.Some? && |buf.value| > 0 ==>
      && |r| == |buf.value| + 2
      && r[..|buf.value|] == buf.value
      && TailValue(r[|buf.value|], r[|buf.value| + 1]) == Crc16(crcType, buf.value)
  {
    if buf.None? then []
    else if |buf.value| == 0 then buf.value
    else buf.value + CrcTail(Crc16(crcType, buf.value))
  }

  /** `getDataBytes`: inputs that are null or shorter than three bytes give an
      empty array, a trailing checksum that does not match gives null, and
      otherwise the bytes before the checksum. */
  function GetDataBytes(src: Option<bytes>, crcType: int): (r: Option<bytes>)
    ensures src.None? || |src.value| < CRC16_BUF_MIN_SIZE ==> r == Some([])
    ensures src.Some? && |src.value| >= CRC16_BUF_MIN_SIZE ==>
      var n := |src.value|;
      && (r.None? <==> Crc16(crcType, src.value[..n - 2]) != TailValue(src.value[n - 2], src.value[n - 1]))
      && (r.Some? ==> r.value == src.value[..n - 2])
  {
    if src.None? || |src.value| < CRC16_BUF_MIN_SIZE then Some([])
    else
      var n := |src.value|;
      var data := src.value[..n - 2];
      if Crc16(crcType, data) != TailValue(src.value[n - 2], src.value[n - 1]) then None else Some(data)
  }

  /** Splitting a frame into its data and its two trailing bytes. */
  lemma FrameSplit(s: bytes)
    requires |s| >= 2
    ensures s == s[..|s| - 2] + [s[|s| - 2], s[|s| - 1]]
  {
  }

  /** The checksum appended by `getCrc16Bytes` is accepted by `getDataBytes`,
      which gives back the original bytes. */
  lemma CrcRoundTrip(b: bytes, crcType: int)
    requires |b| > 0
    ensures GetDataBytes(Some(GetCrc16Bytes(Some(b), crcType)), crcType) == Some(b)
  {
    var s := GetCrc16Bytes(Some(b), crcType);
    assert s[..|s| - 2] == b;
  }

  /** Conversely, every frame `getDataBytes` accepts is exactly what
      `getCrc16Bytes` produces for the data it returns. */
  lemma CrcAcceptsOnlyFramed(s: bytes, crcType: int)
    requires |s| >= CRC16_BUF_MIN_SIZE
    ensures GetDataBytes(Some(s), crcType).Some? ==>
      GetCrc16Bytes(GetDataBytes(Some(s), crcType), crcType) == s
  {
    TailOfValue(s[|s| - 2], s[|s| - 1]);
    FrameSplit(s);
  }
}
