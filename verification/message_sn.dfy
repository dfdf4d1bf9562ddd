/** The process-wide sequence-number generator and client key of
    `message/MessageSnBuilder.java`, as an explicit state value. */
module MessageSn {
  import opened JavaTypes
  import opened Wrappers
  import opened CrcUtils

  /** `sn` is the Java int counter (always 0..0xFFFF); `clientKey` is 0 until
      a key is set. */
  datatype SnState = SnState(sn: uint16, clientKey: int16)

  /** The singleton as first created. */
  const Fresh: SnState := SnState(0, 0)

  /** `getNextSn`: the counter advances modulo 0x10000 and skips 0; the
      value is handed out as a signed short. */
  function NextSn(s: SnState): (r: (SnState, int16))
    ensures r.0.clientKey == s.clientKey
    ensures 1 <= r.0.sn <= 0xFFFF
    ensures s.sn < 0xFFFF ==> r.0.sn == s.sn + 1
    ensures s.sn == 0xFFFF ==> r.0.sn == 1
    ensures U16(r.1) == r.0.sn
  {
    var next := (s.sn + 1) % 0x1_0000;
    var next' := if next == 0 then 1 else next;
    (s.(sn := next'), ToInt16(next'))
  }

  /** The state after `n` calls to `getNextSn` from a fresh generator. */
  function AfterCalls(n: nat): (s: SnState)
    decreases n
  {
    if n == 0 then Fresh else NextSn(AfterCalls(n - 1)).0
  }

  /** Counting modulo 0xFFFF advances by one or wraps to 0. */
  lemma ModSucc(m: nat)
    ensures m % 0xFFFF < 0xFFFE ==> (m + 1) % 0xFFFF == m % 0xFFFF + 1
    ensures m % 0xFFFF == 0xFFFE ==> (m + 1) % 0xFFFF == 0
  {
    var q := m / 0xFFFF;
    var r := m % 0xFFFF;
    assert m == q * 0xFFFF + r;
    if r < 0xFFFE {
      assert m + 1 == q * 0xFFFF + (r + 1);
      DivMod(q, r + 1, 0xFFFF);
    } else {
      assert m + 1 == (q + 1) * 0xFFFF + 0;
      DivMod(q + 1, 0, 0xFFFF);
    }
  }

  /** The values handed out run 1, 2, …, 0xFFFF, 1, 2, …: call `n` yields
      `(n - 1) mod 0xFFFF + 1`, never 0. */

  lemma {:induction false} SnCycle(n: nat)
    requires n >= 1
    ensures AfterCalls(n).sn == (n - 1) % 0xFFFF + 1
    decreases n
  {
    if n > 1 {
      var prev := AfterCalls(n - 1);
      assert AfterCalls(n) == NextSn(prev).0;
      SnCycle(n - 1);
      ModSucc(n - 2);
      if (n - 2) % 0xFFFF < 0xFFFE {
        assert prev.sn < 0xFFFF;
      } else {
        assert prev.sn == 0xFFFF;
      }
    }
  }

  /** `getClientKey`: throws while no key is set. */
  function GetClientKey(s: SnState): (r: Result<int16>)
    ensures r.Failure? <==> s.clientKey == 0
    ensures r.Success? ==> r.value == s.clientKey
  {
    if s.clientKey == 0 then Failure(NoClientKey) else Success(s.clientKey)
  }

  /** `setClientKey`: a null or empty key throws and leaves the state alone;
      otherwise the key becomes the type-2 CRC of the key's bytes, as a
      short. The key is given as its encoded bytes. */
  function SetClientKey(s: SnState, key: Option<bytes>): (r: Result<SnState>)
    ensures r.Failure? <==> key.None? || |key.value| == 0
    ensures r.Success? ==> r.value.sn == s.sn
    ensures r.Success? ==> U16(r.value.clientKey) == Crc16(CRC16_CCITT, key.value)
  {
    if key.None? || |key.value| == 0 then Failure(EmptyClientKey)
    else
      var c := Crc16(CRC16_CCITT, key.value);
      Int16RoundTrip(c);
      Success(s.(clientKey := ToInt16(c)))
  }

  /** A key whose checksum is 0 is accepted by `setClientKey` yet leaves the
      generator without a usable key: a single NUL byte is one. */
  lemma ZeroChecksumKey(s: SnState)
    ensures SetClientKey(s, Some([0])).Success?
    ensures GetClientKey(SetClientKey(s, Some([0])).value).Failure?
  {
    assert Reverse8(0) == 0;
    assert ByteStep(0, 0) == 0;
    assert Register(0, [0], true) == Register(0, [], true);
    assert Reverse16(0) == 0;
  }
}
