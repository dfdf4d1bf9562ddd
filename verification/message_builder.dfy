/** A message and the builder that assembles it: `message/Message.java`
    (the record and its constructor) and `message/BaseMessageBuilder.java`. */
module MessageBuilders {
  import opened JavaTypes
  import opened Wrappers
  import opened MessageSn

  /** Payloads longer than this need the 8-byte fragment sub-header. */
  const SHORT_MAX_SIZE: nat := 4084
  /** The payload bytes each fragment of a large message carries. */
  const LONG_MAX_SIZE: nat := 4080

  /** The builder's fields; `body` is an array reference that `setBody` may
      set to null. */
  datatype Draft = Draft(
    ptype: int8,
    sn: int16,
    pid: int16,
    vid: int16,
    isResponse: bool,
    msgId: int16,
    isAck: bool,
    body: Option<bytes>)

  datatype Message = Message(
    msgId: int16,
    isLarge: bool,
    body: bytes,
    isAck: bool,
    ptype: int8,
    isResponse: bool,
    sn: int16,
    pid: int16,
    vid: int16)

  /** The field initialisers, which the no-argument constructor keeps. */
  const EmptyDraft: Draft := Draft(0, 0, 0, 0, false, 0, false, Some([]))

  /** `new Message(builder)`: every field is copied and the message counts as
      large when its body exceeds the short payload size; a null body is a
      NullPointerException. */
  function Build(d: Draft): (r: Result<Message>)
    ensures r.Failure? <==> d.body.None?
    ensures r.Success? ==>
      && r.value.body == d.body.value
      && (r.value.isLarge <==> |d.body.value| > SHORT_MAX_SIZE)
      && r.value.msgId == d.msgId && r.value.sn == d.sn && r.value.pid == d.pid
      && r.value.vid == d.vid && r.value.ptype == d.ptype
      && r.value.isAck == d.isAck && r.value.isResponse == d.isResponse
  {
    match d.body
    case None => Failure(NullPointer)
    case Some(b) =>
      Success(Message(d.msgId, |b| > SHORT_MAX_SIZE, b, d.isAck, d.ptype, d.isResponse, d.sn, d.pid, d.vid))
  }

  /** A message as the constructor leaves it: the large flag agrees with the
      body length. */
  predicate Consistent(m: Message)
  {
    m.isLarge <==> |m.body| > SHORT_MAX_SIZE
  }

  /** The draft that rebuilds a given message. */
  function DraftOf(m: Message): Draft
  {
    Draft(m.ptype, m.sn, m.pid, m.vid, m.isResponse, m.msgId, m.isAck, Some(m.body))
  }

  /** Every consistent message is built from exactly one body and field set:
      rebuilding it from its own fields gives it back. */
  lemma BuildOfDraftOf(m: Message)
    ensures Build(DraftOf(m)).Success?
    ensures Consistent(m) <==> Build(DraftOf(m)) == Success(m)
  {
  }

  /** The sending constructor: the next sequence number is taken first, then
      the client key; a missing key throws after the number was consumed. */
  function SendBuilder(s: SnState, msgId: int16): (r: (SnState, Result<Draft>))
    ensures r.0 == NextSn(s).0
    ensures r.1.Failure? <==> s.clientKey == 0
    ensures r.1.Success? ==>
      && r.1.value == EmptyDraft.(msgId := msgId, sn := NextSn(s).1, pid := s.clientKey)
      && !r.1.value.isResponse
      && r.1.value.sn != 0
  {
    var (s', sn) := NextSn(s);
    match GetClientKey(s')
    case Failure(e) => (s', Failure(e))
    case Success(key) => (s', Success(EmptyDraft.(msgId := msgId, sn := sn, pid := key)))
  }

  /** The replying constructor: the caller's sequence number is echoed, the
      draft is marked as a response, and the generator is not advanced. */
  function ReplyBuilder(s: SnState, msgId: int16, sn: int16): (r: Result<Draft>)
    ensures r.Failure? <==> s.clientKey == 0
    ensures r.Success? ==>
      && r.value == EmptyDraft.(msgId := msgId, sn := sn, pid := s.clientKey, isResponse := true)
  {
    var key :- GetClientKey(s);
    Success(EmptyDraft.(msgId := msgId, sn := sn, isResponse := true, pid := key))
  }

  function SetAck(d: Draft, ack: bool): (r: Draft)
    ensures r.isAck == ack && r.(isAck := d.isAck) == d
  {
    d.(isAck := ack)
  }

  function SetBody(d: Draft, body: Option<bytes>): (r: Draft)
    ensures r.body == body && r.(body := d.body) == d
  {
    d.(body := body)
  }

  function SetType(d: Draft, ptype: int8): (r: Draft)
    ensures r.ptype == ptype && r.(ptype := d.ptype) == d
  {
    d.(ptype := ptype)
  }

  function SetVid(d: Draft, vid: int16): (r: Draft)
    ensures r.vid == vid && r.(vid := d.vid) == d
  {
    d.(vid := vid)
  }

  /** `getPid`: the client key read as an unsigned 16-bit value. */
  function GetPid(m: Message): (r: uint16)
    ensures ToInt16(r) == m.pid
  {
    U16(m.pid)
  }

  /** Two successive sends carry different sequence numbers, neither of
      them 0. */
  lemma SendsDiffer(s: SnState, msgId1: int16, msgId2: int16)
    requires s.clientKey != 0
    ensures var (s1, d1) := SendBuilder(s, msgId1);
      var (_, d2) := SendBuilder(s1, msgId2);
      && d1.Success? && d2.Success? && d1.value.sn != d2.value.sn
      && d1.value.sn != 0 && d2.value.sn != 0
  {
    var (s1, _) := NextSn(s);
    var (s2, _) := NextSn(s1);
    assert s1.sn != s2.sn;
  }
}
