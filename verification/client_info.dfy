/** `main/bean/ClientInfo.java`: a client of the server, parsed from a
    client-update message whose body is the client's state byte, its IPv4
    address as a little-endian int, and its port as a little-endian short. */
module ClientInfos {
  import opened JavaTypes
  import opened Wrappers
  import opened Decimal
  import opened BytesUtils
  import opened Constants
  import opened MessageBuilders

  datatype ClientInfo = ClientInfo(vid: int16, pid: int16, port: int, ip: string, connectState: int8)

  /** The body length `parse` reads: one state byte, four address bytes,
      two port bytes. */
  const BODY_LENGTH: nat := 7

  /** `parse`: the ids come from the header; a body shorter than seven
      bytes is an ArrayIndexOutOfBoundsException. */
  function Parse(msg: Message): (r: Result<ClientInfo>)
    ensures r.Failure? <==> |msg.body| < BODY_LENGTH
    ensures r.Failure? ==> r.error == IndexOutOfBounds
    ensures r.Success? ==>
      && r.value.vid == msg.vid && r.value.pid == msg.pid
      && U8(r.value.connectState) == msg.body[0]
      && 0 <= r.value.port < 0x1_0000
      && r.value.port == LittleEndian(msg.body[5..7])
  {
    if |msg.body| < BODY_LENGTH then Failure(IndexOutOfBounds)
    else
      var b := msg.body;
      Int8RoundTrip(b[0]);
      var port := U16(BytesToShort(b, 5));
      Success(ClientInfo(msg.vid, msg.pid, port, Int2Ip(BytesToInt(b, 1)), ToInt8(b[0])))
  }

  /** The address is printed most significant byte first, so the four
      address bytes of the body appear in reverse order. */
  lemma ParseIpReversed(msg: Message)
    requires |msg.body| >= BODY_LENGTH
    ensures var b := msg.body;
      Parse(msg).value.ip
        == NatToString(b[4]) + "." + NatToString(b[3]) + "." + NatToString(b[2]) + "." + NatToString(b[1])
  {
    var b := msg.body;
    var w := b[1..5];
    Int2IpLittleEndian(BytesToInt(b, 1), w);
    assert w[0] == b[1] && w[1] == b[2] && w[2] == b[3] && w[3] == b[4];
  }

  /** The body a server writes for a client: the state byte, the address
      and the port, little-endian. */
  function Encode(state: int8, address: int32, port: uint16): (r: bytes)
    ensures |r| == BODY_LENGTH
  {
    [U8(state)] + IntToBytes(address) + ShortToBytes(ToInt16(port))
  }

  /** Parsing an encoded body gives back the state, the address as
      `int2Ip` prints it, and the port. */
  lemma ParseEncoded(msg: Message, state: int8, address: int32, port: uint16)
    requires msg.body == Encode(state, address, port)
    ensures Parse(msg).Success?
    ensures var c := Parse(msg).value;
      c.connectState == state && c.ip == Int2Ip(address) && c.port == port
  {
    var b := msg.body;
    IntRoundTrip(address);
    ShortRoundTrip(ToInt16(port));
    assert b[1..5] == IntToBytes(address);
    assert b[5..7] == ShortToBytes(ToInt16(port));
    assert BytesToInt(b, 1) == BytesToInt(IntToBytes(address), 0);
    assert BytesToShort(b, 5) == BytesToShort(ShortToBytes(ToInt16(port)), 0);
    assert U16(ToInt16(port)) == port;
  }

  /** `getStateString`. The connect-failed state reads "disconnected" and
      the disconnected state "remove"; the crashed state and every other
      byte read "unknown". */
  function StateString(state: int8): (s: string)
    ensures s == "unknown" <==>
      !(STATE_CLIENT_CONNECTING <= state <= STATE_CLIENT_DISCONNECT_FAILED)
    ensures state == STATE_CLIENT_CONNECT_FAILED ==> s == "disconnected"
    ensures state == STATE_CLIENT_DISCONNECTED ==> s == "remove"
  {
    if state == STATE_CLIENT_CONNECTING then "connecting"
    else if state == STATE_CLIENT_CONNECTED then "connected"
    else if state == STATE_CLIENT_CONNECT_FAILED then "disconnected"
    else if state == STATE_CLIENT_DISCONNECTING then "disconnecting"
    else if state == STATE_CLIENT_DISCONNECTED then "remove"
    else if state == STATE_CLIENT_DISCONNECT_FAILED then "disconnect failed"
    else "unknown"
  }

  /** The six known states read as six different strings. */
  lemma StateStringInjective(a: int8, b: int8)
    requires STATE_CLIENT_CONNECTING <= a <= STATE_CLIENT_DISCONNECT_FAILED
    requires STATE_CLIENT_CONNECTING <= b <= STATE_CLIENT_DISCONNECT_FAILED
    ensures StateString(a) == StateString(b) ==> a == b
  {
  }
}
