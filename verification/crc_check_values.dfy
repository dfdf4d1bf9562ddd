/** The check values CRC catalogues quote for the three `crc16Ccitt` types. */
module CrcCheckValues {
  import opened JavaTypes
  import opened CrcUtils

  /** The byte the register takes in: reflected first when `reflect` holds. */
  function Fed(b: uint8, reflect: bool): bv8
  {
    if reflect then Reverse8(b as bv8) else b as bv8
  }

  /** `d` is the ASCII text "123456789", on which CRC catalogues quote each
      algorithm's check value. */
  predicate IsCheckInput(d: bytes)
  {
    |d| == 9 && forall i :: 0 <= i < 9 ==> d[i] == 0x31 + i
  }

  /** When byte `i` of `d` enters the register as `b`, and `b` moves the
      register from `c` to `next`, the register moves along the suffix of
      `d` from `i` to the suffix from `i + 1`. */
  lemma Advance(d: bytes, i: nat, reflect: bool, c: bv16, b: bv8, next: bv16)
    requires i < |d|
    requires Fed(d[i], reflect) == b
    requires ByteStep(c, b) == next
    ensures Register(c, d[i..], reflect) == Register(next, d[i + 1..], reflect)
  {
    assert d[i..][1..] == d[i + 1..];
  }

  /** Type 1 computes CRC-16/XMODEM:
      on "123456789" it gives the catalogue check value 0x31C3. */
  lemma XmodemCheckValue(d: bytes)
    requires IsCheckInput(d)
    ensures Crc16(CRC16_XMODEM, d) == 0x31C3
  {
    assert d[0..] == d;
    XmodemBytes0(d);
    XmodemBytes3(d);
    XmodemBytes6(d);
  }

  /** Bytes 0 to 2 of the Xmodem register. */
  lemma XmodemBytes0(d: bytes)
    requires IsCheckInput(d)
    ensures Register(0x0000, d[0..], false) == Register(0x9752, d[3..], false)
  {
    Advance(d, 0, false, 0x0000, 0x31, 0x2672);
    Advance(d, 1, false, 0x2672, 0x32, 0x20B5);
    Advance(d, 2, false, 0x20B5, 0x33, 0x9752);
  }

  /** Bytes 3 to 5 of the Xmodem register. */
  lemma XmodemBytes3(d: bytes)
    requires IsCheckInput(d)
    ensures Register(0x9752, d[3..], false) == Register(0x20E4, d[6..], false)
  {
    Advance(d, 3, false, 0x9752, 0x34, 0xD789);
    Advance(d, 4, false, 0xD789, 0x35, 0x546C);
    Advance(d, 5, false, 0x546C, 0x36, 0x20E4);
  }

  /** Bytes 6 to 8 of the Xmodem register. */
  lemma XmodemBytes6(d: bytes)
    requires IsCheckInput(d)
    ensures Register(0x20E4, d[6..], false) == Register(0x31C3, d[9..], false)
  {
    Advance(d, 6, false, 0x20E4, 0x37, 0x86D6);
    Advance(d, 7, false, 0x86D6, 0x38, 0x9015);
    Advance(d, 8, false, 0x9015, 0x39, 0x31C3);
  }

  /** Type 3 computes CRC-16/CCITT-FALSE:
      on "123456789" it gives the catalogue check value 0x29B1. */
  lemma CcittFalseCheckValue(d: bytes)
    requires IsCheckInput(d)
    ensures Crc16(CRC16_CCITT_FALSE, d) == 0x29B1
  {
    assert d[0..] == d;
    CcittFalseBytes0(d);
    CcittFalseBytes3(d);
    CcittFalseBytes6(d);
  }

  /** Bytes 0 to 2 of the CcittFalse register. */
  lemma CcittFalseBytes0(d: bytes)
    requires IsCheckInput(d)
    ensures Register(0xFFFF, d[0..], false) == Register(0x5BCE, d[3..], false)
  {
    Advance(d, 0, false, 0xFFFF, 0x31, 0xC782);
    Advance(d, 1, false, 0xC782, 0x32, 0x3DBA);
    Advance(d, 2, false, 0x3DBA, 0x33, 0x5BCE);
  }

  /** Bytes 3 to 5 of the CcittFalse register. */
  lemma CcittFalseBytes3(d: bytes)
    requires IsCheckInput(d)
    ensures Register(0x5BCE, d[3..], false) == Register(0x2EF4, d[6..], false)
  {
    Advance(d, 3, false, 0x5BCE, 0x34, 0x5349);
    Advance(d, 4, false, 0x5349, 0x35, 0x4560);
    Advance(d, 5, false, 0x4560, 0x36, 0x2EF4);
  }

  /** Bytes 6 to 8 of the CcittFalse register. */
  lemma CcittFalseBytes6(d: bytes)
    requires IsCheckInput(d)
    ensures Register(0x2EF4, d[6..], false) == Register(0x29B1, d[9..], false)
  {
    Advance(d, 6, false, 0x2EF4, 0x37, 0x7718);
    Advance(d, 7, false, 0x7718, 0x38, 0xA12B);
    Advance(d, 8, false, 0xA12B, 0x39, 0x29B1);
  }

  /** Type 2 computes CRC-16/KERMIT:
      on "123456789" it gives the catalogue check value 0x2189. */
  lemma KermitCheckValue(d: bytes)
    requires IsCheckInput(d)
    ensures Crc16(CRC16_CCITT, d) == 0x2189
  {
    KermitRegister(d);
    assert Reverse16(0x9184) == 0x2189;
  }

  /** The register before the final reflection. */
  lemma KermitRegister(d: bytes)
    requires IsCheckInput(d)
    ensures Register(0x0000, d, true) == 0x9184
  {
    assert d[0..] == d;
    KermitBytes0(d);
    KermitBytes3(d);
    KermitBytes6(d);
  }

  /** Bytes 0 to 2 of the Kermit register. */
  lemma KermitBytes0(d: bytes)
    requires IsCheckInput(d)
    ensures Register(0x0000, d[0..], true) == Register(0x1E5A, d[3..], true)
  {
    Advance(d, 0, true, 0x0000, 0x8C, 0x5004);
    Advance(d, 1, true, 0x5004, 0x4C, 0xD7BD);
    Advance(d, 2, true, 0xD7BD, 0xCC, 0x1E5A);
  }

  /** Bytes 3 to 5 of the Kermit register. */
  lemma KermitBytes3(d: bytes)
    requires IsCheckInput(d)
    ensures Register(0x1E5A, d[3..], true) == Register(0xBF88, d[6..], true)
  {
    Advance(d, 3, true, 0x1E5A, 0x2C, 0x4C11);
    Advance(d, 4, true, 0x4C11, 0xAC, 0xEC2E);
    Advance(d, 5, true, 0xEC2E, 0x6C, 0xBF88);
  }

  /** Bytes 6 to 8 of the Kermit register. */
  lemma KermitBytes6(d: bytes)
    requires IsCheckInput(d)
    ensures Register(0xBF88, d[6..], true) == Register(0x9184, d[9..], true)
  {
    Advance(d, 6, true, 0xBF88, 0xEC, 0xE296);
    Advance(d, 7, true, 0xE296, 0x1C, 0x98D1);
    Advance(d, 8, true, 0x98D1, 0x9C, 0x9184);
  }
}
