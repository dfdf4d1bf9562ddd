/** The sending side of `connection/PacketWriter.java`: messages are cut
    into frames and queued; the writer thread takes them in order and
    writes their bytes; a heartbeat is written on a fixed period. */
module PacketWriters {
  import opened JavaTypes
  import opened Wrappers
  import opened ArrayUtils
  import opened PacketHeaders
  import opened Packets
  import opened MessageSn
  import opened MessageBuilders
  import opened Messages
  import opened PacketReaders

  /** The heartbeat period used when none is configured, in milliseconds. */
  const DEFAULT_HEART_INTERVAL: int := 10 * 1000

  /** The queue, the shutdown flag, and the heartbeat period once the
      heartbeat is scheduled. */
  datatype Writer = Writer(queue: seq<Packet>, shutdown: bool, heartbeat: Option<int>)

  const NewWriter: Writer := Writer([], false, None)

  /** The frames `sendMessage` queues for a message, cut by `getPackets`
      as the source writes it: none when cutting it up throws, since the
      exception is swallowed before anything is put. */
  function FramesFor(m: Message): (ps: seq<Packet>)
    ensures GetPacketsAsWritten(m).Success? ==> ps == GetPacketsAsWritten(m).value
    ensures GetPacketsAsWritten(m).Failure? ==> ps == []
  {
    match GetPacketsAsWritten(m)
    case Success(ps) => ps
    case Failure(_) => []
  }

  /** Putting frames at the end of the queue as one run, unless shut down. */
  function Enqueue(w: Writer, ps: seq<Packet>): (r: Writer)
    ensures r.shutdown == w.shutdown && r.heartbeat == w.heartbeat
    ensures w.shutdown ==> r == w
    ensures !w.shutdown ==> |r.queue| == |w.queue| + |ps| && r.queue[..|w.queue|] == w.queue
  {
    if w.shutdown then w else w.(queue := w.queue + ps)
  }

  /** `sendMessage`: the frames of the message go to the end of the queue
      as one run; after shutdown nothing changes. */
  function SendMessage(w: Writer, m: Message): (r: Writer)
    ensures w.shutdown ==> r == w
    ensures !w.shutdown ==> r == w.(queue := w.queue + FramesFor(m))
  {
    Enqueue(w, FramesFor(m))
  }

  /** `shutdown`: no further frames are queued or taken, and the heartbeat
      is cancelled. */
  function Shutdown(w: Writer): (r: Writer)
    ensures r.shutdown && r.heartbeat.None? && r.queue == w.queue
  {
    w.(shutdown := true, heartbeat := None)
  }

  /** What `nextPacket` does: hand out the head of the queue, return null
      because the writer was shut down, or wait for a frame. */
  datatype Taken = Got(packet: Packet, rest: Writer) | Closed | Waits

  function NextPacket(w: Writer): (t: Taken)
    ensures t.Closed? <==> w.shutdown
    ensures t.Waits? <==> !w.shutdown && |w.queue| == 0
    ensures t.Got? ==> [t.packet] + t.rest.queue == w.queue && t.rest == w.(queue := t.rest.queue)
  {
    if w.shutdown then Closed
    else if |w.queue| == 0 then Waits
    else Got(w.queue[0], w.(queue := w.queue[1..]))
  }

  /** Taking frames until the writer would wait or is closed. */
  function Drain(w: Writer): seq<Packet>
    decreases |w.queue|
  {
    match NextPacket(w)
    case Got(p, rest) => [p] + Drain(rest)
    case _ => []
  }

  /** The queue is first in, first out: a running writer hands out exactly
      its queue, in order; a shut-down one hands out nothing. */
  lemma {:induction false} DrainIsQueue(w: Writer)
    ensures !w.shutdown ==> Drain(w) == w.queue
    ensures w.shutdown ==> Drain(w) == []
    decreases |w.queue|
  {
    match NextPacket(w)
    case Got(p, rest) => DrainIsQueue(rest);
    case _ =>
  }

  function Concat<T>(bs: seq<seq<T>>): seq<T>
    decreases |bs|
  {
    if |bs| == 0 then [] else bs[0] + Concat(bs[1..])
  }

  lemma {:induction false} ConcatMember<T>(bs: seq<seq<T>>, i: nat)
    requires i < |Concat(bs)|
    ensures exists j, k :: 0 <= j < |bs| && 0 <= k < |bs[j]| && Concat(bs)[i] == bs[j][k]
    decreases |bs|
  {
    if i < |bs[0]| {
      assert Concat(bs)[i] == bs[0][i];
    } else {
      ConcatMember(bs[1..], i - |bs[0]|);
      var j, k :| 0 <= j < |bs[1..]| && 0 <= k < |bs[1..][j]| && Concat(bs[1..])[i - |bs[0]|] == bs[1..][j][k];
      assert Concat(bs)[i] == bs[j + 1][k];
    }
  }

  /** Queuing batches one after another. */
  function EnqueueAll(w: Writer, bs: seq<seq<Packet>>): Writer
    decreases |bs|
  {
    if |bs| == 0 then w else EnqueueAll(Enqueue(w, bs[0]), bs[1..])
  }

  /** Batches queued one after another come out in queuing order, each
      batch contiguous; after shutdown nothing more is queued. */
  lemma {:induction false} EnqueueInOrder(w: Writer, bs: seq<seq<Packet>>)
    ensures EnqueueAll(w, bs).shutdown == w.shutdown
    ensures !w.shutdown ==> EnqueueAll(w, bs).queue == w.queue + Concat(bs)
    ensures w.shutdown ==> EnqueueAll(w, bs) == w
    decreases |bs|
  {
    if |bs| > 0 {
      EnqueueInOrder(Enqueue(w, bs[0]), bs[1..]);
      if !w.shutdown {
        assert w.queue + bs[0] + Concat(bs[1..]) == w.queue + Concat(bs);
      }
    }
  }

  /** The frames of each message, in sending order. */
  function Batches(ms: seq<Message>): (bs: seq<seq<Packet>>)
    ensures |bs| == |ms|
  {
    seq(|ms|, i requires 0 <= i < |ms| => FramesFor(ms[i]))
  }

  /** `sendMessage` called for each message in turn. */
  function Sends(w: Writer, ms: seq<Message>): Writer
  {
    EnqueueAll(w, Batches(ms))
  }

  /** Messages sent one after another come out of the queue as their frames
      in sending order, each message's frames contiguous. */
  lemma SendsInOrder(w: Writer, ms: seq<Message>)
    ensures Sends(w, ms).shutdown == w.shutdown
    ensures !w.shutdown ==> Sends(w, ms).queue == w.queue + Concat(Batches(ms))
    ensures w.shutdown ==> Sends(w, ms) == w
  {
    EnqueueInOrder(w, Batches(ms));
  }

  /** `keepAlive`: a period that is not positive becomes the default, so
      the heartbeat is always scheduled with a positive period. */
  function KeepAlive(w: Writer, interval: int64): (r: Writer)
    ensures r.heartbeat.Some? && r.heartbeat.value > 0
    ensures interval > 0 ==> r.heartbeat == Some(interval as int)
    ensures interval <= 0 ==> r.heartbeat == Some(DEFAULT_HEART_INTERVAL)
    ensures r.queue == w.queue && r.shutdown == w.shutdown
  {
    w.(heartbeat := Some(if interval <= 0 then DEFAULT_HEART_INTERVAL else interval as int))
  }

  /** The writer thread's output: the bytes of each frame taken, in order;
      a frame whose bytes cannot be produced throws and ends the thread. */
  function WriteAll(ps: seq<Packet>): (r: Result<seq<bytes>>)
    ensures r.Success? ==> |r.value| == |ps|
    ensures r.Success? ==> forall i :: 0 <= i < |ps| ==> Packets.GetBytes(ps[i]) == Success(r.value[i])
    ensures (forall i :: 0 <= i < |ps| ==> Packets.GetBytes(ps[i]).Success?) ==> r.Success?
    decreases |ps|
  {
    if |ps| == 0 then Success([])
    else
      var b := Packets.GetBytes(ps[0]);
      if b.Failure? then Failure(b.error)
      else
        var rest := WriteAll(ps[1..]);
        if rest.Failure? then Failure(rest.error) else Success([b.value] + rest.value)
  }

  /** A message the reader can take apart: built by the constructor, a
      non-ACK type that fits four bits, a 13-bit id, a body that cuts into
      frames, and not one of the two body lengths at which the source's
      split flags its fragments wrongly. */
  predicate Sendable(m: Message)
  {
    && Consistent(m)
    && 0 <= m.msgId as int < MSG_ID_RANGE
    && 0 <= m.ptype as int <= PacketHeaders.TYPE_MASK
    && m.ptype != TYPE_ACK
    && |m.body| != 4083 && |m.body| != 4084
    && GetPacketsAsWritten(m).Success?
  }

  lemma SendableFrames(m: Message)
    requires Sendable(m)
    ensures forall i :: 0 <= i < |FramesFor(m)| ==>
      && WellFormed(FramesFor(m)[i])
      && FramesFor(m)[i].header.magic == DEFAULT_MAGIC
      && FramesFor(m)[i].header.ptype == m.ptype
  {
    AsWrittenAgrees(m);
    FramesOnTheWire(m);
    var ps := GetPackets(m).value;
    var large := |Payload(m)| > SHORT_MAX_SIZE;
    FramesHeaders(m, Payload(m), large);
    forall i | 0 <= i < |ps|
      ensures ps[i].header.magic == DEFAULT_MAGIC && ps[i].header.ptype == m.ptype
    {
      if large {
        var chunks := DivideSpec(Some(Payload(m)), LONG_MAX_SIZE);
        assert ps[i] == Fragment(m, chunks, i, large);
      } else {
        assert ps[i] == Single(m, Payload(m), large);
      }
    }
  }

  /** What a running writer puts on the wire for a run of messages is read
      back by the stream parser as exactly those frames, however the bytes
      are split on the way: sending and reading are inverse. */
  lemma WireRoundTrip(ms: seq<Message>)
    requires forall i :: 0 <= i < |ms| ==> Sendable(ms[i])
    ensures var w := Sends(NewWriter, ms);
      && WriteAll(Drain(w)).Success?
      && Scan(Flatten(WriteAll(Drain(w)).value)) == Scanned(WriteAll(Drain(w)).value, 0, 0, [])
  {
    var w := Sends(NewWriter, ms);
    SendsInOrder(NewWriter, ms);
    DrainIsQueue(w);
    var ps := Concat(Batches(ms));
    assert w.queue == [] + ps == ps;
    QueuedFramesEncode(ms);
    WrittenAreFrames(ps);
  }

  lemma WrittenAreFrames(ps: seq<Packet>)
    requires forall i :: 0 <= i < |ps| ==> Packets.GetBytes(ps[i]).Success? && IsFrame(Packets.GetBytes(ps[i]).value)
    ensures WriteAll(ps).Success?
    ensures Scan(Flatten(WriteAll(ps).value)) == Scanned(WriteAll(ps).value, 0, 0, [])
  {
    FramesRecovered(WriteAll(ps).value);
  }

  lemma QueuedFramesEncode(ms: seq<Message>)
    requires forall i :: 0 <= i < |ms| ==> Sendable(ms[i])
    ensures var ps := Concat(Batches(ms));
      forall i :: 0 <= i < |ps| ==> Packets.GetBytes(ps[i]).Success? && IsFrame(Packets.GetBytes(ps[i]).value)
  {
    var bs := Batches(ms);
    var ps := Concat(bs);
    forall i | 0 <= i < |ps|
      ensures Packets.GetBytes(ps[i]).Success? && IsFrame(Packets.GetBytes(ps[i]).value)
    {
      ConcatMember(bs, i);
      var j, k :| 0 <= j < |bs| && 0 <= k < |bs[j]| && ps[i] == bs[j][k];
      FrameEncodes(ms[j], k);
    }
  }

  lemma FrameEncodes(m: Message, k: nat)
    requires Sendable(m) && k < |FramesFor(m)|
    ensures Packets.GetBytes(FramesFor(m)[k]).Success? && IsFrame(Packets.GetBytes(FramesFor(m)[k]).value)
  {
    SendableFrames(m);
    EncodedIsFrame(FramesFor(m)[k]);
  }

  /** A message whose body has 4083 or 4084 bytes is queued as two frames
      the writer thread cannot encode: `getBytes` on the first one throws a
      BufferUnderflowException, which ends the thread. */
  lemma BoundaryWriteFails(w: Writer, m: Message)
    requires !w.shutdown && Consistent(m)
    requires |m.body| == 4083 || |m.body| == 4084
    ensures |FramesFor(m)| == 2
    ensures WriteAll(Drain(SendMessage(w, m))).Failure?
    ensures WriteAll(FramesFor(m)) == Failure(BufferUnderflow)
  {
    AsWrittenBoundaryUnderflow(m);
    var w1 := SendMessage(w, m);
    DrainIsQueue(w1);
    WriteAllFails(w.queue, FramesFor(m));
    WriteAllHeadFails(FramesFor(m));
  }

  /** Writing stops at the first frame that cannot be encoded, whatever was
      queued before it. */
  lemma {:induction false} WriteAllFails(done: seq<Packet>, ps: seq<Packet>)
    requires |ps| > 0 && Packets.GetBytes(ps[0]).Failure?
    ensures WriteAll(done + ps).Failure?
    decreases |done|
  {
    if |done| == 0 {
      assert done + ps == ps;
      WriteAllHeadFails(ps);
    } else {
      var x := done + ps;
      assert x[1..] == done[1..] + ps;
      WriteAllFails(done[1..], ps);
      WriteAllRestFails(x);
    }
  }

  /** A head frame that cannot be encoded ends the run with its error. */
  lemma WriteAllHeadFails(ps: seq<Packet>)
    requires |ps| > 0 && Packets.GetBytes(ps[0]).Failure?
    ensures WriteAll(ps) == Failure(Packets.GetBytes(ps[0]).error)
  {
  }

  /** A failure later in the run is a failure of the whole run. */
  lemma WriteAllRestFails(x: seq<Packet>)
    requires |x| > 0 && WriteAll(x[1..]).Failure?
    ensures WriteAll(x).Failure?
  {
  }

  /** `sendHeartbeatMsg`: a sending message with id 0 and the heart type,
      not asking for an acknowledgement, with an empty body. It takes a
      sequence number and needs the client key like any other. */
  function Heartbeat(s: SnState): (r: (SnState, Result<Message>))
    ensures r.0 == NextSn(s).0
    ensures r.1.Failure? <==> s.clientKey == 0
  {
    var (s', d) := SendBuilder(s, 0);
    match d
    case Failure(e) => (s', Failure(e))
    case Success(d) => (s', Build(SetAck(SetType(d, TYPE_HEART), false)))
  }

  /** The heartbeat travels as one frame of the heart type whose paddingSize
      is 4, the short sub-header alone, and it reads back as itself. */
  lemma HeartbeatShape(s: SnState)
    requires s.clientKey != 0
    ensures var m := Heartbeat(s).1.value;
      && m.msgId == 0 && m.ptype == TYPE_HEART && !m.isAck && !m.isResponse && m.body == []
      && m.sn == NextSn(s).1 && m.pid == s.clientKey
      && GetPacketsAsWritten(m).Success? && |GetPacketsAsWritten(m).value| == 1
      && GetPacketsAsWritten(m).value[0].header.paddingSize == 4
      && GetPacketsAsWritten(m).value[0].body == []
      && Reassemble(GetPacketsAsWritten(m).value) == Success(m)
  {
    var m := Heartbeat(s).1.value;
    assert Payload(m) == [];
    AsWrittenAgrees(m);
    GetPacketsShape(m);
    RoundTrip(m);
  }
}
