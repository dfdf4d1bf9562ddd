/** Splitting a message into frames and putting frames back together:
    `Message.getPackets` and the `Message.Builder(Packet[])` constructor of
    `message/Message.java`. A message body travels with a type-2 CRC
    appended; a payload of more than 4084 bytes is cut into 4080-byte
    fragments that carry their count and 1-based index. */
module Messages {
  import opened JavaTypes
  import opened Wrappers
  import opened CrcUtils
  import opened ArrayUtils
  import PacketHeaders
  import opened Packets
  import opened MessageBuilders

  const MSG_CRC_TYPE: int := CRC16_CCITT
  const SHORT_HEADER_SIZE: nat := 4
  const LONG_HEADER_SIZE: nat := 8
  /** The fragment loop counts with a Java short: more fragments than this
      make it wrap to a negative index. */
  const MAX_FRAGMENTS: nat := 0x7FFF

  /** The body with its checksum, as sent. */
  function Payload(m: Message): (r: bytes)
    ensures |m.body| == 0 ==> r == []
    ensures |m.body| > 0 ==> |r| == |m.body| + 2
  {
    GetCrc16Bytes(Some(m.body), MSG_CRC_TYPE)
  }

  /** Fragment `i` of a large message; `large` is the flag the frame gets. */
  function Fragment(m: Message, chunks: seq<bytes>, i: nat, large: bool): (p: Packet)
    requires i < |chunks|
  {
    NewBuilder(m.ptype, m.pid, m.vid, ToInt16(|chunks[i]| + LONG_HEADER_SIZE)).(
      isLarge := large, isAck := m.isAck, isResponse := m.isResponse, sn := m.sn,
      msgId := m.msgId, subCount := ToInt16(|chunks|), subIndex := ToInt16(i + 1), body := chunks[i])
  }

  /** The single frame of a short message. */
  function Single(m: Message, payload: bytes, large: bool): (p: Packet)
  {
    NewBuilder(m.ptype, m.pid, m.vid, ToInt16(|payload| + SHORT_HEADER_SIZE)).(
      isLarge := large, isAck := m.isAck, isResponse := m.isResponse, msgId := m.msgId,
      sn := m.sn, body := payload)
  }

  /** The frames `getPackets` makes of a payload, every one flagged `large`. */
  function FramesOf(m: Message, payload: bytes, large: bool): (r: Result<seq<Packet>>)
  {
    if |payload| > SHORT_MAX_SIZE then
      var chunks := DivideSpec(Some(payload), LONG_MAX_SIZE);
      if |chunks| > MAX_FRAGMENTS then Failure(IndexOutOfBounds)
      else Success(seq(|chunks|, i requires 0 <= i < |chunks| => Fragment(m, chunks, i, large)))
    else Success([Single(m, payload, large)])
  }

  function PacketsWith(m: Message, large: bool): (r: Result<seq<Packet>>)
  {
    FramesOf(m, Payload(m), large)
  }

  /** `getPackets` as the source writes it: the split is decided by the
      payload length but the large flag is the message's, which was decided
      by the body length. */
  function GetPacketsAsWritten(m: Message): (r: Result<seq<Packet>>)
  {
    PacketsWith(m, m.isLarge)
  }

  /** `getPackets` with the large flag taken from the same test that decides
      the split. */
  function GetPackets(m: Message): (r: Result<seq<Packet>>)
  {
    PacketsWith(m, |Payload(m)| > SHORT_MAX_SIZE)
  }

  // ---- reassembly ----

  /** The header fields `parsePacket` copies from a frame. */
  function HeaderOf(d: Draft, p: Packet): (r: Draft)
  {
    d.(msgId := p.msgId, isAck := p.isAck, isResponse := p.isResponse, ptype := p.header.ptype,
       pid := p.header.pid, vid := p.header.vid, sn := p.sn)
  }

  /** `parsePacket`: the header fields, and for a frame that is not large
      also the checked body; a checksum mismatch is an
      UnFormatMessageException. */
  function ParsePacket(d: Draft, p: Packet): (r: Result<Draft>)
    ensures p.isLarge ==> r == Success(HeaderOf(d, p))
    ensures !p.isLarge ==>
      && (r.Failure? <==> GetDataBytes(Some(p.body), MSG_CRC_TYPE).None?)
      && (r.Success? ==> r.value == HeaderOf(d, p).(body := GetDataBytes(Some(p.body), MSG_CRC_TYPE)))
  {
    var h := HeaderOf(d, p);
    if p.isLarge then Success(h)
    else match GetDataBytes(Some(p.body), MSG_CRC_TYPE)
      case None => Failure(UnFormatMessage)
      case Some(b) => Success(h.(body := Some(b)))
  }

  /** Where fragment `subIndex` starts in the reassembly buffer. */
  function FragmentStart(p: Packet): int
  {
    (p.subIndex as int - 1) * LONG_MAX_SIZE
  }

  predicate Covers(p: Packet, k: int)
  {
    FragmentStart(p) <= k < FragmentStart(p) + |p.body|
  }

  /** `System.arraycopy(src, 0, buf, start, |src|)`. */
  function CopyInto(buf: bytes, start: int, src: bytes): (r: Result<bytes>)
    ensures r.Success? <==> 0 <= start && start + |src| <= |buf|
    ensures r.Success? ==> |r.value| == |buf|
    ensures r.Success? ==> forall k :: 0 <= k < |buf| ==>
      r.value[k] == if start <= k < start + |src| then src[k - start] else buf[k]
  {
    if start < 0 || start + |src| > |buf| then Failure(IndexOutOfBounds)
    else Success(buf[..start] + src + buf[start + |src|..])
  }

  datatype Assembly = Assembly(draft: Draft, buf: bytes)

  /** The loop over the frames in arrival order: a frame with index 1 makes
      `parsePacket` run on the FIRST frame of the array, then the frame's
      body is copied to its slot. */
  function Fill(a: Assembly, ps: seq<Packet>, first: Packet): (r: Result<Assembly>)
    decreases |ps|
  {
    if |ps| == 0 then Success(a)
    else
      var pkt := ps[0];
      var d :- if pkt.subIndex == 1 then ParsePacket(a.draft, first) else Success(a.draft);
      var buf :- CopyInto(a.buf, FragmentStart(pkt), pkt.body);
      Fill(Assembly(d, buf), ps[1..], first)
  }

  function Bodies(ps: seq<Packet>): (r: seq<bytes>)
    ensures |r| == |ps| && forall i :: 0 <= i < |ps| ==> r[i] == ps[i].body
  {
    seq(|ps|, i requires 0 <= i < |ps| => ps[i].body)
  }

  /** `new Message.Builder(packets).build()`. An empty array is an index
      error; one frame must not be large and is parsed on its own; several
      frames must be as many as the first one's count, are copied into a
      buffer of 4080 bytes per frame, and the copied bytes must pass the
      checksum. */
  function Reassemble(packets: seq<Packet>): (r: Result<Message>)
    ensures |packets| == 0 ==> r == Failure(IndexOutOfBounds)
    ensures |packets| == 1 && packets[0].isLarge ==> r == Failure(UnFormatMessage)
    ensures |packets| > 1 && |packets| != packets[0].subCount as int ==> r == Failure(UnFormatMessage)
    ensures |packets| == 1 && !packets[0].isLarge ==>
      var data := GetDataBytes(Some(packets[0].body), MSG_CRC_TYPE);
      && (data.None? ==> r == Failure(UnFormatMessage))
      && (r.Success? ==> data.Some? && r.value.body == data.value && r.value.msgId == packets[0].msgId)
    ensures r.Success? ==> Consistent(r.value)
  {
    if |packets| == 0 then Failure(IndexOutOfBounds)
    else
      var first := packets[0];
      if |packets| == 1 then
        if first.isLarge then Failure(UnFormatMessage)
        else
          var d :- ParsePacket(EmptyDraft, first);
          Build(d)
      else if |packets| != first.subCount as int then Failure(UnFormatMessage)
      else
        var a :- Fill(Assembly(EmptyDraft, Zeros(|packets| * LONG_MAX_SIZE)), packets, first);
        var size := TotalLength(Bodies(packets));
        if size > |a.buf| then Failure(IndexOutOfBounds)
        else match GetDataBytes(Some(a.buf[..size]), MSG_CRC_TYPE)
          case None => Failure(UnFormatMessage)
          case Some(b) => Build(a.draft.(body := Some(b)))
  }

  // ---- the shape of the frames ----

  /** Fragments laid end to end from slot 0: fragment `i` has index `i + 1`,
      every fragment but the last fills its 4080-byte slot, and none
      overflows it. */
  predicate Tiled(ps: seq<Packet>)
  {
    forall i :: 0 <= i < |ps| ==>
      && ps[i].subIndex as int == i + 1
      && |ps[i].body| <= LONG_MAX_SIZE
      && (i < |ps| - 1 ==> |ps[i].body| == LONG_MAX_SIZE)
  }

  lemma ChunksTwo(e: bytes, len: nat)
    requires 0 < len < |e|
    ensures |Chunks(e, len)| >= 2
  {
    assert Chunks(e, len) == [e[..len]] + Chunks(e[len..], len);
  }

  /** What `getPackets` makes of a payload when the large flag agrees with
      the split: one non-large frame holding the whole payload, or at least
      two large fragments, tiled, that concatenate to the payload and all
      name their count; more than 0x7FFF fragments fail. */
  lemma FramesShape(m: Message, payload: bytes)
    ensures var r := FramesOf(m, payload, |payload| > SHORT_MAX_SIZE);
      r.Success? <==> (|payload| <= SHORT_MAX_SIZE || |Chunks(payload, LONG_MAX_SIZE)| <= MAX_FRAGMENTS)
    ensures var r := FramesOf(m, payload, |payload| > SHORT_MAX_SIZE);
      r.Success? && |payload| <= SHORT_MAX_SIZE ==> r.value == [Single(m, payload, false)]
    ensures var r := FramesOf(m, payload, |payload| > SHORT_MAX_SIZE);
      r.Success? && |payload| > SHORT_MAX_SIZE ==>
        var ps := r.value;
        && |ps| >= 2
        && Tiled(ps)
        && Flatten(Bodies(ps)) == payload
        && (forall i :: 0 <= i < |ps| ==> ps[i].isLarge && ps[i].subCount as int == |ps|)
  {
    if |payload| > SHORT_MAX_SIZE {
      var chunks := DivideSpec(Some(payload), LONG_MAX_SIZE);
      assert chunks == Chunks(payload, LONG_MAX_SIZE);
      if |chunks| <= MAX_FRAGMENTS {
        ChunksTwo(payload, LONG_MAX_SIZE);
        ChunksShape(payload, LONG_MAX_SIZE);
        FragmentsShape(m, chunks);
      }
    }
  }

  /** Fragments made of chunks that are full except the last are tiled,
      carry the chunks as bodies and all name their count. */
  lemma FragmentsShape(m: Message, chunks: seq<bytes>)
    requires 0 < |chunks| <= MAX_FRAGMENTS
    requires forall i :: 0 <= i < |chunks| - 1 ==> |chunks[i]| == LONG_MAX_SIZE
    requires |chunks[|chunks| - 1]| <= LONG_MAX_SIZE
    ensures var ps := seq(|chunks|, i requires 0 <= i < |chunks| => Fragment(m, chunks, i, true));
      && Tiled(ps)
      && Bodies(ps) == chunks
      && (forall i :: 0 <= i < |ps| ==> ps[i].isLarge && ps[i].subCount as int == |ps|)
  {
    var ps := seq(|chunks|, i requires 0 <= i < |chunks| => Fragment(m, chunks, i, true));
    forall i | 0 <= i < |ps|
      ensures ps[i].subIndex as int == i + 1 && ps[i].body == chunks[i]
      ensures ps[i].isLarge && ps[i].subCount as int == |ps|
    {
      assert ps[i] == Fragment(m, chunks, i, true);
    }
    assert Bodies(ps) == chunks;
  }

  /** Every frame carries the message's header fields. */
  lemma FramesHeaders(m: Message, payload: bytes, large: bool)
    requires FramesOf(m, payload, large).Success?
    ensures var ps := FramesOf(m, payload, large).value;
      forall i :: 0 <= i < |ps| ==> HeaderOf(EmptyDraft, ps[i]) == DraftOf(m).(body := Some([]))
  {
    if |payload| > SHORT_MAX_SIZE {
      var chunks := DivideSpec(Some(payload), LONG_MAX_SIZE);
      var ps := FramesOf(m, payload, large).value;
      forall i | 0 <= i < |ps|
        ensures HeaderOf(EmptyDraft, ps[i]) == DraftOf(m).(body := Some([]))
      {
        assert ps[i] == Fragment(m, chunks, i, large);
      }
    }
  }

  lemma GetPacketsShape(m: Message)
    ensures var payload := Payload(m);
      GetPackets(m).Success? <==>
        (|payload| <= SHORT_MAX_SIZE || |Chunks(payload, LONG_MAX_SIZE)| <= MAX_FRAGMENTS)
    ensures var payload := Payload(m);
      GetPackets(m).Success? && |payload| <= SHORT_MAX_SIZE ==>
        GetPackets(m).value == [Single(m, payload, false)]
    ensures var payload := Payload(m);
      GetPackets(m).Success? && |payload| > SHORT_MAX_SIZE ==>
        var ps := GetPackets(m).value;
        && |ps| >= 2
        && Tiled(ps)
        && Flatten(Bodies(ps)) == payload
        && (forall i :: 0 <= i < |ps| ==> ps[i].isLarge && ps[i].subCount as int == |ps|)
  {
    FramesShape(m, Payload(m));
  }

  /** The frames differ from the corrected ones exactly when the body has
      4083 or 4084 bytes; for every other consistent message they agree. */
  lemma AsWrittenAgrees(m: Message)
    requires Consistent(m)
    requires |m.body| != 4083 && |m.body| != 4084
    ensures GetPacketsAsWritten(m) == GetPackets(m)
  {
    assert m.isLarge == (|Payload(m)| > SHORT_MAX_SIZE);
  }

  /** With a body of 4083 or 4084 bytes the payload is split in two, but the
      fragments are not flagged large; their paddingSize counts an 8-byte
      sub-header that `getBytes` then does not write, so encoding the first
      fragment fails with a BufferUnderflowException. */
  lemma AsWrittenBoundaryUnderflow(m: Message)
    requires Consistent(m)
    requires |m.body| == 4083 || |m.body| == 4084
    ensures GetPacketsAsWritten(m).Success?
    ensures |GetPacketsAsWritten(m).value| == 2
    ensures !GetPacketsAsWritten(m).value[0].isLarge
    ensures Packets.GetBytes(GetPacketsAsWritten(m).value[0]) == Failure(BufferUnderflow)
  {
    BoundaryFrames(m, Payload(m));
  }

  /** A payload of 4085 or 4086 bytes is split in two; with the large flag
      off, the first fragment's paddingSize asks for more bytes than are
      written. */
  lemma BoundaryFrames(m: Message, payload: bytes)
    requires |payload| == 4085 || |payload| == 4086
    ensures FramesOf(m, payload, false).Success?
    ensures |FramesOf(m, payload, false).value| == 2
    ensures !FramesOf(m, payload, false).value[0].isLarge
    ensures Packets.GetBytes(FramesOf(m, payload, false).value[0]) == Failure(BufferUnderflow)
  {
    var chunks := Chunks(payload, LONG_MAX_SIZE);
    assert DivideSpec(Some(payload), LONG_MAX_SIZE) == chunks;
    assert chunks == [payload[..LONG_MAX_SIZE]] + Chunks(payload[LONG_MAX_SIZE..], LONG_MAX_SIZE);
    assert Chunks(payload[LONG_MAX_SIZE..], LONG_MAX_SIZE) == [payload[LONG_MAX_SIZE..]];
    var p := Fragment(m, chunks, 0, false);
    assert FramesOf(m, payload, false).value[0] == p;
    assert p.header.paddingSize as int == 4088;
    assert |Prefix(p)| == 12;
  }

  // ---- reassembly of what was split ----

  /** The reassembly buffer after the first `j` tiled fragments were copied:
      their bodies end to end, then zeros. */
  function Laid(ps: seq<Packet>, j: nat): bytes
    requires j <= |ps|
  {
    var f := Flatten(Bodies(ps)[..j]);
    var n := |ps| * LONG_MAX_SIZE;
    if |f| <= n then f + Zeros(n - |f|) else f
  }

  lemma {:induction false} TiledPrefixLength(ps: seq<Packet>, j: nat)
    requires Tiled(ps) && j < |ps|
    ensures |Flatten(Bodies(ps)[..j])| == j * LONG_MAX_SIZE
    decreases j
  {
    if j > 0 {
      TiledPrefixLength(ps, j - 1);
      var b := Bodies(ps);
      assert b[..j] == b[..j - 1] + [b[j - 1]];
      FlattenAppend(b[..j - 1], b[j - 1]);
    }
  }

  lemma ZerosEqual(a: bytes, n: nat)
    requires |a| == n && forall k :: 0 <= k < n ==> a[k] == 0
    ensures a == Zeros(n)
  {
  }

  /** Copying fragment `j` into its slot extends the laid-out prefix. */
  lemma LaidStep(ps: seq<Packet>, j: nat)
    requires Tiled(ps) && j < |ps|
    ensures CopyInto(Laid(ps, j), FragmentStart(ps[j]), ps[j].body) == Success(Laid(ps, j + 1))
  {
    var b := Bodies(ps);
    var n := |ps| * LONG_MAX_SIZE;
    var f := Flatten(b[..j]);
    TiledPrefixLength(ps, j);
    assert b[..j + 1] == b[..j] + [b[j]];
    FlattenAppend(b[..j], b[j]);
    var f' := f + b[j];
    assert Flatten(b[..j + 1]) == f';
    assert |f'| <= (j + 1) * LONG_MAX_SIZE <= n;
    var buf := f + Zeros(n - |f|);
    assert Laid(ps, j) == buf;
    assert FragmentStart(ps[j]) == |f|;
    assert buf[..|f|] == f;
    var tail := buf[|f| + |b[j]|..];
    ZerosEqual(tail, n - |f'|);
    assert Laid(ps, j + 1) == f' + Zeros(n - |f'|);
    assert buf[..|f|] + b[j] + tail == f' + Zeros(n - |f'|);
  }

  /** Copying the fragments from the second on, none of which has index 1,
      leaves the draft alone and lays out every body. */
  lemma {:induction false} FillTiled(d: Draft, ps: seq<Packet>, first: Packet, j: nat)
    requires Tiled(ps) && 1 <= j <= |ps|
    ensures Fill(Assembly(d, Laid(ps, j)), ps[j..], first) == Success(Assembly(d, Laid(ps, |ps|)))
    decreases |ps| - j
  {
    if j < |ps| {
      var rest := ps[j..];
      assert rest[0] == ps[j] && rest[0].subIndex != 1;
      LaidStep(ps, j);
      assert rest[1..] == ps[j + 1..];
      FillTiled(d, ps, first, j + 1);
    } else {
      assert ps[j..] == [];
    }
  }

  /** The bytes copied from tiled fragments, cut to their total size, are
      their concatenation. */
  lemma LaidWhole(ps: seq<Packet>)
    requires Tiled(ps) && |ps| > 0
    ensures TotalLength(Bodies(ps)) <= |Laid(ps, |ps|)|
    ensures Laid(ps, |ps|)[..TotalLength(Bodies(ps))] == Flatten(Bodies(ps))
  {
    var b := Bodies(ps);
    var k := |ps| - 1;
    TiledPrefixLength(ps, k);
    assert b == b[..k] + [b[k]];
    FlattenAppend(b[..k], b[k]);
    FlattenLength(b);
    assert b[..|ps|] == b;
  }

  /** Splitting a consistent message and reassembling its frames, in order,
      gives the message back. */
  lemma RoundTrip(m: Message)
    requires Consistent(m)
    requires GetPackets(m).Success?
    ensures Reassemble(GetPackets(m).value) == Success(m)
  {
    var payload := Payload(m);
    GetPacketsShape(m);
    var ps := GetPackets(m).value;
    if |payload| <= SHORT_MAX_SIZE {
      if |m.body| > 0 {
        CrcRoundTrip(m.body, MSG_CRC_TYPE);
      }
      SingleRoundTrip(m, payload);
    } else {
      CrcRoundTrip(m.body, MSG_CRC_TYPE);
      FragmentsRoundTrip(m, ps);
    }
  }

  lemma SingleRoundTrip(m: Message, payload: bytes)
    requires Consistent(m)
    requires GetDataBytes(Some(payload), MSG_CRC_TYPE) == Some(m.body)
    ensures Reassemble([Single(m, payload, false)]) == Success(m)
  {
  }

  lemma FragmentsRoundTrip(m: Message, ps: seq<Packet>)
    requires Consistent(m)
    requires |ps| >= 2 && Tiled(ps)
    requires forall i :: 0 <= i < |ps| ==> ps[i].isLarge && ps[i].subCount as int == |ps|
    requires HeaderOf(EmptyDraft, ps[0]) == DraftOf(m).(body := Some([]))
    requires GetDataBytes(Some(Flatten(Bodies(ps))), MSG_CRC_TYPE) == Some(m.body)
    ensures Reassemble(ps) == Success(m)
  {
    var first := ps[0];
    var n := |ps| * LONG_MAX_SIZE;
    var d := HeaderOf(EmptyDraft, first);
    assert Laid(ps, 0) == Zeros(n) by {
      assert Bodies(ps)[..0] == [];
    }
    LaidStep(ps, 0);
    assert ps[1..] == ps[1..][0..];
    FillTiled(d, ps, first, 1);
    assert Fill(Assembly(EmptyDraft, Zeros(n)), ps, first) == Success(Assembly(d, Laid(ps, |ps|)));
    LaidWhole(ps);
  }

  // ---- on the wire ----

  lemma FramesWellFormed(m: Message, payload: bytes)
    requires 0 <= m.msgId as int < MSG_ID_RANGE && 0 <= m.ptype as int <= PacketHeaders.TYPE_MASK
    requires |payload| > SHORT_MAX_SIZE ==> Flatten(Chunks(payload, LONG_MAX_SIZE)) == payload
    requires FramesOf(m, payload, |payload| > SHORT_MAX_SIZE).Success?
    ensures var ps := FramesOf(m, payload, |payload| > SHORT_MAX_SIZE).value;
      forall i :: 0 <= i < |ps| ==> WellFormed(ps[i])
  {
    var ps := FramesOf(m, payload, |payload| > SHORT_MAX_SIZE).value;
    if |payload| > SHORT_MAX_SIZE {
      var chunks := DivideSpec(Some(payload), LONG_MAX_SIZE);
      assert chunks == Chunks(payload, LONG_MAX_SIZE);
      ChunksShape(payload, LONG_MAX_SIZE);
      forall i | 0 <= i < |ps|
        ensures WellFormed(ps[i])
      {
        assert ps[i] == Fragment(m, chunks, i, true);
        FragmentWellFormed(m, chunks, i);
      }
    } else {
      SingleWellFormed(m, payload);
    }
  }

  lemma FragmentWellFormed(m: Message, chunks: seq<bytes>, i: nat)
    requires 0 <= m.msgId as int < MSG_ID_RANGE && 0 <= m.ptype as int <= PacketHeaders.TYPE_MASK
    requires i < |chunks| <= MAX_FRAGMENTS && |chunks[i]| <= LONG_MAX_SIZE
    ensures WellFormed(Fragment(m, chunks, i, true))
  {
    var p := Fragment(m, chunks, i, true);
    assert p.header.paddingSize as int == |chunks[i]| + LONG_HEADER_SIZE;
  }

  lemma SingleWellFormed(m: Message, payload: bytes)
    requires 0 <= m.msgId as int < MSG_ID_RANGE && 0 <= m.ptype as int <= PacketHeaders.TYPE_MASK
    requires |payload| <= SHORT_MAX_SIZE
    ensures WellFormed(Single(m, payload, false))
  {
    var p := Single(m, payload, false);
    assert p.header.paddingSize as int == |payload| + SHORT_HEADER_SIZE;
  }

  /** Every frame of a message whose id fits 13 bits and whose type fits 4
      bits is self-consistent, so it encodes without truncation and decodes
      back to itself. */
  lemma FramesOnTheWire(m: Message)
    requires 0 <= m.msgId as int < MSG_ID_RANGE && 0 <= m.ptype as int <= PacketHeaders.TYPE_MASK
    requires GetPackets(m).Success?
    ensures var ps := GetPackets(m).value;
      forall i :: 0 <= i < |ps| ==>
        && WellFormed(ps[i])
        && Packets.GetBytes(ps[i]).Success?
        && Decode(Packets.GetBytes(ps[i]).value) == Success(ps[i])
  {
    var payload := Payload(m);
    if |payload| > SHORT_MAX_SIZE {
      ChunksShape(payload, LONG_MAX_SIZE);
    }
    FramesWellFormed(m, payload);
    var ps := GetPackets(m).value;
    forall i | 0 <= i < |ps|
      ensures Packets.GetBytes(ps[i]).Success? && Decode(Packets.GetBytes(ps[i]).value) == Success(ps[i])
    {
      PacketRoundTrip(ps[i]);
    }
  }

  /** The round trip of the frames as the source builds them holds for
      every body length except 4083 and 4084. */
  lemma RoundTripAsWritten(m: Message)
    requires Consistent(m)
    requires |m.body| != 4083 && |m.body| != 4084
    requires GetPacketsAsWritten(m).Success?
    ensures Reassemble(GetPacketsAsWritten(m).value) == Success(m)
  {
    AsWrittenAgrees(m);
    RoundTrip(m);
  }

  // ---- arrival order ----

  /** Two fragments whose slots do not overlap. */
  predicate Apart(p: Packet, q: Packet)
  {
    FragmentStart(p) + |p.body| <= FragmentStart(q) || FragmentStart(q) + |q.body| <= FragmentStart(p)
  }

  predicate Disjoint(ps: seq<Packet>)
  {
    forall i, j :: 0 <= i < j < |ps| ==> Apart(ps[i], ps[j])
  }

  predicate InBuffer(ps: seq<Packet>, n: nat)
  {
    forall i :: 0 <= i < |ps| ==> 0 <= FragmentStart(ps[i]) && FragmentStart(ps[i]) + |ps[i].body| <= n
  }

  predicate HasFirstIndex(ps: seq<Packet>)
  {
    exists i :: 0 <= i < |ps| && ps[i].subIndex == 1
  }

  /** Copying fragments whose slots do not overlap: every byte of the buffer
      is the byte of the fragment covering it, or is left as it was; and the
      header fields are those of `first` exactly when some fragment has
      index 1. Nothing here depends on the order of `ps`. */
  lemma {:induction false} FillPointwise(a: Assembly, ps: seq<Packet>, first: Packet)
    requires first.isLarge
    requires InBuffer(ps, |a.buf|) && Disjoint(ps)
    ensures Fill(a, ps, first).Success?
    ensures var r := Fill(a, ps, first).value;
      && |r.buf| == |a.buf|
      && (forall i, k :: 0 <= i < |ps| && Covers(ps[i], k) ==> r.buf[k] == ps[i].body[k - FragmentStart(ps[i])])
      && (forall k :: 0 <= k < |a.buf| && (forall i :: 0 <= i < |ps| ==> !Covers(ps[i], k)) ==> r.buf[k] == a.buf[k])
      && r.draft == (if HasFirstIndex(ps) then HeaderOf(a.draft, first) else a.draft)
    decreases |ps|
  {
    if |ps| > 0 {
      var rest := ps[1..];
      var a1 := FillHead(a, ps, first);
      FillPointwise(a1, rest, first);
      var r := Fill(a1, rest, first).value;
      forall i, k | 0 <= i < |ps| && Covers(ps[i], k)
        ensures r.buf[k] == ps[i].body[k - FragmentStart(ps[i])]
      {
        if i == 0 {
          forall j | 0 <= j < |rest|
            ensures !Covers(rest[j], k)
          {
            assert rest[j] == ps[j + 1] && Apart(ps[0], ps[j + 1]);
          }
        } else {
          assert ps[i] == rest[i - 1];
        }
      }
      forall k | 0 <= k < |a.buf| && (forall i :: 0 <= i < |ps| ==> !Covers(ps[i], k))
        ensures r.buf[k] == a.buf[k]
      {
        forall j | 0 <= j < |rest|
          ensures !Covers(rest[j], k)
        {
          assert rest[j] == ps[j + 1];
        }
      }
      HasFirstIndexCons(ps);
    }
  }

  /** One step of the copy loop: the first frame's header fields (when its
      index is 1) and body are taken, and the rest still fit and are apart. */
  lemma FillHead(a: Assembly, ps: seq<Packet>, first: Packet) returns (a1: Assembly)
    requires first.isLarge && |ps| > 0
    requires InBuffer(ps, |a.buf|) && Disjoint(ps)
    ensures Fill(a, ps, first) == Fill(a1, ps[1..], first)
    ensures a1.draft == if ps[0].subIndex == 1 then HeaderOf(a.draft, first) else a.draft
    ensures |a1.buf| == |a.buf|
    ensures forall k :: 0 <= k < |a.buf| ==>
      a1.buf[k] == if Covers(ps[0], k) then ps[0].body[k - FragmentStart(ps[0])] else a.buf[k]
    ensures InBuffer(ps[1..], |a1.buf|) && Disjoint(ps[1..])
  {
    var pkt := ps[0];
    var d := if pkt.subIndex == 1 then HeaderOf(a.draft, first) else a.draft;
    a1 := Assembly(d, CopyInto(a.buf, FragmentStart(pkt), pkt.body).value);
    var rest := ps[1..];
    assert forall j :: 0 <= j < |rest| ==> rest[j] == ps[j + 1];
  }

  /** Some frame has index 1 exactly when the first does or a later one
      does. */
  lemma HasFirstIndexCons(ps: seq<Packet>)
    requires |ps| > 0
    ensures HasFirstIndex(ps) <==> ps[0].subIndex == 1 || HasFirstIndex(ps[1..])
  {
    var rest := ps[1..];
    if HasFirstIndex(ps) && ps[0].subIndex != 1 {
      var i :| 0 <= i < |ps| && ps[i].subIndex == 1;
      assert rest[i - 1] == ps[i];
    }
    if HasFirstIndex(rest) {
      var i :| 0 <= i < |rest| && rest[i].subIndex == 1;
      assert ps[i + 1] == rest[i];
    }
  }

  /** Copying the same fragments in any order, with first frames that agree
      on the header fields, gives the same buffer and the same fields. */
  lemma FillOrderIndependent(a: Assembly, ps1: seq<Packet>, ps2: seq<Packet>, f1: Packet, f2: Packet)
    requires multiset(ps1) == multiset(ps2)
    requires f1.isLarge && f2.isLarge && HeaderOf(a.draft, f1) == HeaderOf(a.draft, f2)
    requires InBuffer(ps1, |a.buf|) && Disjoint(ps1) && Disjoint(ps2)
    ensures Fill(a, ps1, f1) == Fill(a, ps2, f2)
  {
    assert forall p :: p in ps1 <==> p in ps2 by {
      forall p
        ensures p in ps1 <==> p in ps2
      {
        assert p in ps1 <==> p in multiset(ps1);
        assert p in ps2 <==> p in multiset(ps2);
      }
    }
    assert InBuffer(ps2, |a.buf|) by {
      forall j | 0 <= j < |ps2|
        ensures 0 <= FragmentStart(ps2[j]) && FragmentStart(ps2[j]) + |ps2[j].body| <= |a.buf|
      {
        assert ps2[j] in ps1;
      }
    }
    FillPointwise(a, ps1, f1);
    FillPointwise(a, ps2, f2);
    var r1 := Fill(a, ps1, f1).value;
    var r2 := Fill(a, ps2, f2).value;
    forall k | 0 <= k < |a.buf|
      ensures r1.buf[k] == r2.buf[k]
    {
      if i :| 0 <= i < |ps1| && Covers(ps1[i], k) {
        assert ps1[i] in ps2;
        var j :| 0 <= j < |ps2| && ps2[j] == ps1[i];
        assert Covers(ps2[j], k);
      } else {
        forall j | 0 <= j < |ps2|
          ensures !Covers(ps2[j], k)
        {
          assert ps2[j] in ps1;
          var i :| 0 <= i < |ps1| && ps1[i] == ps2[j];
          assert !Covers(ps1[i], k);
        }
      }
    }
    assert r1.buf == r2.buf;
    assert HasFirstIndex(ps1) <==> HasFirstIndex(ps2) by {
      if HasFirstIndex(ps1) {
        var i :| 0 <= i < |ps1| && ps1[i].subIndex == 1;
        assert ps1[i] in ps2;
      }
      if HasFirstIndex(ps2) {
        var j :| 0 <= j < |ps2| && ps2[j].subIndex == 1;
        assert ps2[j] in ps1;
      }
    }
  }

  lemma TotalBodiesConcat(a: seq<Packet>, b: seq<Packet>)
    ensures TotalLength(Bodies(a + b)) == TotalLength(Bodies(a)) + TotalLength(Bodies(b))
  {
    assert Bodies(a + b) == Bodies(a) + Bodies(b);
    FlattenConcat(Bodies(a), Bodies(b));
    FlattenLength(Bodies(a + b));
    FlattenLength(Bodies(a));
    FlattenLength(Bodies(b));
  }

  /** The reassembled size, a sum over the frames, does not depend on their
      order. */
  lemma {:induction false} TotalBodiesPermutation(ps1: seq<Packet>, ps2: seq<Packet>)
    requires multiset(ps1) == multiset(ps2)
    ensures TotalLength(Bodies(ps1)) == TotalLength(Bodies(ps2))
    decreases |ps1|
  {
    if |ps1| == 0 {
      assert |ps2| == |multiset(ps2)| == 0;
      assert Bodies(ps2) == [];
    } else {
      var x := ps1[0];
      PermutationSplit(ps1, ps2);
      var j :| 0 <= j < |ps2| && ps2[j] == x && multiset(ps1[1..]) == multiset(ps2[..j] + ps2[j + 1..]);
      var rest2 := ps2[..j] + ps2[j + 1..];
      assert ps2 == ps2[..j] + [x] + ps2[j + 1..];
      TotalBodiesPermutation(ps1[1..], rest2);
      var pre, post := ps2[..j], ps2[j + 1..];
      var tx := TotalLength(Bodies([x]));
      assert ps1 == [x] + ps1[1..];
      TotalBodiesConcat([x], ps1[1..]);
      assert TotalLength(Bodies(ps1)) == tx + TotalLength(Bodies(ps1[1..]));
      TotalBodiesConcat(pre + [x], post);
      TotalBodiesConcat(pre, [x]);
      assert TotalLength(Bodies(ps2)) == TotalLength(Bodies(pre)) + tx + TotalLength(Bodies(post));
      TotalBodiesConcat(pre, post);
      assert TotalLength(Bodies(rest2)) == TotalLength(Bodies(pre)) + TotalLength(Bodies(post));
    }
  }

  /** Whether slots overlap is a property of the collection of fragments,
      not of their order. */
  lemma DisjointPermutation(ps1: seq<Packet>, ps2: seq<Packet>)
    requires multiset(ps1) == multiset(ps2) && Disjoint(ps1)
    ensures Disjoint(ps2)
  {
    forall i, j | 0 <= i < j < |ps2|
      ensures Apart(ps2[i], ps2[j])
    {
      ApartAfterPermutation(ps1, ps2, i, j);
    }
  }

  /** Removing one occurrence of an element keeps the rest. */
  lemma RemoveOne<T>(s: seq<T>, i: nat)
    requires i < |s|
    ensures multiset(s[..i] + s[i + 1..]) == multiset(s) - multiset{s[i]}
  {
    assert s == s[..i] + [s[i]] + s[i + 1..];
    assert multiset(s) == multiset(s[..i]) + multiset{s[i]} + multiset(s[i + 1..]);
  }

  /** The head of one arrangement sits somewhere in the other, and the rests
      are arrangements of each other. */
  lemma PermutationSplit<T>(s1: seq<T>, s2: seq<T>)
    requires multiset(s1) == multiset(s2) && |s1| > 0
    ensures exists j :: 0 <= j < |s2| && s2[j] == s1[0] && multiset(s1[1..]) == multiset(s2[..j] + s2[j + 1..])
  {
    var x := s1[0];
    assert x in multiset(s2);
    var j :| 0 <= j < |s2| && s2[j] == x;
    var rest2 := s2[..j] + s2[j + 1..];
    RemoveOne(s2, j);
    RemoveHead(s1);
    assert multiset(s1[1..]) == multiset(rest2);
    assert 0 <= j < |s2| && s2[j] == s1[0] && multiset(s1[1..]) == multiset(s2[..j] + s2[j + 1..]);
  }

  lemma RemoveHead<T>(s: seq<T>)
    requires |s| > 0
    ensures multiset(s[1..]) == multiset(s) - multiset{s[0]}
  {
    assert s == [s[0]] + s[1..];
  }

  /** Two positions of one arrangement hold elements found at two distinct
      positions of the other. */
  lemma PermutedPair<T>(s1: seq<T>, s2: seq<T>, i: nat, j: nat)
    requires multiset(s1) == multiset(s2) && i < j < |s2|
    ensures exists i1, j1 :: 0 <= i1 < |s1| && 0 <= j1 < |s1| && i1 != j1 && s1[i1] == s2[i] && s1[j1] == s2[j]
  {
    var rest2 := s2[..i] + s2[i + 1..];
    RemoveOne(s2, i);
    assert s2[j] == rest2[j - 1];
    assert s2[i] in multiset(s1);
    var i1 :| 0 <= i1 < |s1| && s1[i1] == s2[i];
    var rest1 := s1[..i1] + s1[i1 + 1..];
    RemoveOne(s1, i1);
    assert s2[j] in multiset(rest1);
    var t :| 0 <= t < |rest1| && rest1[t] == s2[j];
    var j1 := if t < i1 then t else t + 1;
    assert s1[j1] == s2[j] && j1 != i1;
  }

  lemma ApartAfterPermutation(ps1: seq<Packet>, ps2: seq<Packet>, i: nat, j: nat)
    requires multiset(ps1) == multiset(ps2) && Disjoint(ps1)
    requires i < j < |ps2|
    ensures Apart(ps2[i], ps2[j])
  {
    PermutedPair(ps1, ps2, i, j);
    var i1, j1 :| 0 <= i1 < |ps1| && 0 <= j1 < |ps1| && i1 != j1 && ps1[i1] == ps2[i] && ps1[j1] == ps2[j];
    if i1 < j1 {
      assert Apart(ps1[i1], ps1[j1]);
    } else {
      assert Apart(ps1[j1], ps1[i1]);
    }
  }

  /** Frames of one message, in any arrival order, reassemble to the same
      result: all large, agreeing on count and header fields, their slots
      inside the buffer and not overlapping. */
  lemma ReassembleOrderIndependent(ps1: seq<Packet>, ps2: seq<Packet>)
    requires multiset(ps1) == multiset(ps2) && |ps1| >= 2
    requires forall i :: 0 <= i < |ps1| ==>
      && ps1[i].isLarge
      && ps1[i].subCount == ps1[0].subCount
      && HeaderOf(EmptyDraft, ps1[i]) == HeaderOf(EmptyDraft, ps1[0])
    requires InBuffer(ps1, |ps1| * LONG_MAX_SIZE) && Disjoint(ps1)
    ensures Reassemble(ps1) == Reassemble(ps2)
  {
    assert |ps2| == |multiset(ps2)| == |ps1|;
    assert ps2[0] in multiset(ps1);
    var k :| 0 <= k < |ps1| && ps1[k] == ps2[0];
    DisjointPermutation(ps1, ps2);
    var a := Assembly(EmptyDraft, Zeros(|ps1| * LONG_MAX_SIZE));
    FillOrderIndependent(a, ps1, ps2, ps1[0], ps2[0]);
    TotalBodiesPermutation(ps1, ps2);
  }

  /** Tiled fragments sit inside the buffer and do not overlap. */
  lemma TiledDisjoint(ps: seq<Packet>)
    requires Tiled(ps)
    ensures InBuffer(ps, |ps| * LONG_MAX_SIZE) && Disjoint(ps)
  {
  }

  /** Whatever order the frames of a consistent message arrive in, they
      reassemble to the message. */
  lemma ArrivalOrderIrrelevant(m: Message, ps: seq<Packet>)
    requires Consistent(m)
    requires GetPackets(m).Success?
    requires multiset(ps) == multiset(GetPackets(m).value)
    ensures Reassemble(ps) == Success(m)
  {
    var sent := GetPackets(m).value;
    GetPacketsShape(m);
    FramesHeaders(m, Payload(m), |Payload(m)| > SHORT_MAX_SIZE);
    RoundTrip(m);
    if |sent| == 1 {
      SingletonPermutation(sent, ps);
    } else {
      TiledReorder(sent, ps);
    }
  }

  lemma SingletonPermutation<T>(s1: seq<T>, s2: seq<T>)
    requires |s1| == 1 && multiset(s2) == multiset(s1)
    ensures s2 == s1
  {
    assert |s2| == |multiset(s2)| == 1;
    assert s2[0] in multiset(s1);
  }

  /** Tiled fragments of one message reassemble alike in any order. */
  lemma TiledReorder(sent: seq<Packet>, ps: seq<Packet>)
    requires |sent| >= 2 && Tiled(sent)
    requires forall i :: 0 <= i < |sent| ==> sent[i].isLarge && sent[i].subCount as int == |sent|
    requires forall i :: 0 <= i < |sent| ==> HeaderOf(EmptyDraft, sent[i]) == HeaderOf(EmptyDraft, sent[0])
    requires multiset(ps) == multiset(sent)
    ensures Reassemble(ps) == Reassemble(sent)
  {
    TiledDisjoint(sent);
    ReassembleOrderIndependent(sent, ps);
  }
}
