/** The stream demultiplexer of `connection/PacketReader.java`: bytes read
    from the socket arrive in arbitrary chunks; `parseData` prepends what
    was left over last time, cuts out every complete frame, skips bytes that
    do not start a header with the right magic, drops ACK frames, and keeps
    an incomplete tail for the next chunk. */
module PacketReaders {
  import opened JavaTypes
  import opened Wrappers
  import opened ArrayUtils
  import opened PacketHeaders
  import opened Packets

  /** The capacity of the reader's staging buffer. */
  const BUFFER_SIZE: nat := 8192

  /** The frame length a header announces, as the source computes it: the
      signed paddingSize plus the header. */
  function FrameSizeAsWritten(h: PacketHeader): int
  {
    h.paddingSize as int + PacketHeaders.SIZE
  }

  /** The frame length with paddingSize read as the unsigned 16-bit field
      the wire format defines. */
  function FrameSize(h: PacketHeader): (n: int)
    ensures PacketHeaders.SIZE <= n <= 0xFFFF + PacketHeaders.SIZE
    ensures h.paddingSize >= 0 ==> n == FrameSizeAsWritten(h)
  {
    U16(h.paddingSize) + PacketHeaders.SIZE
  }

  /** What one pass of the `while (len > 0)` loop does at `index`, where the
      unparsed length is `|s| - index`. */
  datatype Outcome =
    | Finished
    | Stashed(residual: bytes)
    | Next(index: int, emitted: Option<bytes>)
    | Thrown(err: Error)

  /** One pass of the loop. `unsigned` selects how paddingSize is read:
      false is the code as written, true the wire format's reading. */
  function Step(s: bytes, index: int, unsigned: bool): (o: Outcome)
    ensures index >= |s| <==> o == Finished
    ensures 0 <= index < |s| && |s| - index < PacketHeaders.SIZE ==> o == Stashed(s[index..])
    ensures o.Next? && o.emitted.Some? ==> 0 <= index <= o.index <= |s| && o.emitted.value == s[index..o.index]
    ensures unsigned && 0 <= index ==> !o.Thrown?
    ensures unsigned && o.Next? ==> index < o.index <= |s|
    ensures o.Stashed? ==> 0 <= index && o.residual == s[index..]
  {
    var len := |s| - index;
    if len <= 0 then Finished
    else if index < 0 then Thrown(IndexOutOfBounds)
    else if len < PacketHeaders.SIZE then Stashed(s[index..])
    else
      var h := Parse(s, index).value;
      if h.magic != DEFAULT_MAGIC then Next(index + 1, None)
      else
        var size := if unsigned then FrameSize(h) else FrameSizeAsWritten(h);
        if len >= size then
          if h.ptype != TYPE_ACK then
            if size < 0 then Thrown(NegativeArraySize)
            else Next(index + size, Some(s[index..index + size]))
          else Next(index + size, None)
        else Stashed(s[index..])
  }

  /** A header with the right magic and a paddingSize of -8 (0xFFF8 on the
      wire) gives a frame of length 0, so the loop as written does not
      advance: it hands an empty frame to the listener, which fails to parse
      a header from it and ends the data thread. Read as unsigned, the same
      bytes are an incomplete frame and are kept for later. */
  lemma AsWrittenHangs(s: bytes)
    requires |s| >= PacketHeaders.SIZE
    requires s[..PacketHeaders.SIZE] == PacketHeaders.GetBytes(PacketHeader(TYPE_DATA, DEFAULT_MAGIC, 0, 0, -8))
    requires |s| < 0x1_0000
    ensures Step(s, 0, false) == Next(0, Some([]))
    ensures Step(s, 0, true) == Stashed(s)
  {
    var h := PacketHeader(TYPE_DATA, DEFAULT_MAGIC, 0, 0, -8);
    HeaderRoundTrip(h);
    ParseLocal(s, 0, PacketHeaders.GetBytes(h), 0);
    assert PacketHeaders.GetBytes(h)[0..PacketHeaders.SIZE] == PacketHeaders.GetBytes(h);
    assert s[0..PacketHeaders.SIZE] == s[..PacketHeaders.SIZE];
  }

  /** The same hang for an ACK frame, which is consumed silently forever. */
  lemma AsWrittenHangsOnAck(s: bytes)
    requires |s| >= PacketHeaders.SIZE
    requires s[..PacketHeaders.SIZE] == PacketHeaders.GetBytes(PacketHeader(TYPE_ACK, DEFAULT_MAGIC, 0, 0, -8))
    ensures Step(s, 0, false) == Next(0, None)
  {
    var h := PacketHeader(TYPE_ACK, DEFAULT_MAGIC, 0, 0, -8);
    HeaderRoundTrip(h);
    ParseLocal(s, 0, PacketHeaders.GetBytes(h), 0);
    assert PacketHeaders.GetBytes(h)[0..PacketHeaders.SIZE] == PacketHeaders.GetBytes(h);
    assert s[0..PacketHeaders.SIZE] == s[..PacketHeaders.SIZE];
  }

  /** Whenever paddingSize is not negative, both readings take the same
      step. */
  lemma StepsAgree(s: bytes, index: int)
    requires 0 <= index && index + PacketHeaders.SIZE <= |s|
    requires Parse(s, index).value.paddingSize >= 0
    ensures Step(s, index, false) == Step(s, index, true)
  {
  }

  /** The result of parsing a run of bytes: the frames handed on, how many
      bytes were skipped hunting for a header, how many bytes of ACK frames
      were consumed, and the tail kept for the next chunk. */
  datatype Scanned = Scanned(frames: seq<bytes>, skipped: nat, acked: nat, residual: bytes)

  /** Accounts for one step that moved `k` bytes forward: a frame handed
      on, one byte skipped (only a bad magic moves by one), or an ACK frame
      consumed. */
  function Credit(k: nat, emitted: Option<bytes>, r: Scanned): (c: Scanned)
    ensures c.residual == r.residual
  {
    if emitted.Some? then r.(frames := [emitted.value] + r.frames)
    else if k == 1 then r.(skipped := r.skipped + 1)
    else r.(acked := r.acked + k)
  }

  /** The whole loop with the unsigned reading, which always moves forward. */
  function Scan(s: bytes): (r: Scanned)
    ensures TotalLength(r.frames) + r.skipped + r.acked + |r.residual| == |s|
    decreases |s|
  {
    match Step(s, 0, true)
    case Finished => Scanned([], 0, 0, [])
    case Stashed(rest) => Scanned([], 0, 0, rest)
    case Next(k, emitted) => Credit(k, emitted, Scan(s[k..]))
  }

  /** Every frame handed on starts with a header of the right magic, is not
      an ACK, and is exactly as long as its header announces. */
  predicate IsFrame(f: bytes)
  {
    && |f| >= PacketHeaders.SIZE
    && var h := Parse(f, 0).value;
      h.magic == DEFAULT_MAGIC && h.ptype != TYPE_ACK && |f| == FrameSize(h)
  }

  lemma {:induction false} ScannedFrames(s: bytes)
    ensures forall i :: 0 <= i < |Scan(s).frames| ==> IsFrame(Scan(s).frames[i])
    decreases |s|
  {
    match Step(s, 0, true)
    case Finished =>
    case Stashed(_) =>
    case Next(k, emitted) =>
      ScannedFrames(s[k..]);
      if emitted.Some? {
        var f := emitted.value;
        var h := Parse(s, 0).value;
        assert f == s[..k];
        ParseLocal(s, 0, f, 0);
        assert s[0..PacketHeaders.SIZE] == f[0..PacketHeaders.SIZE];
      }
  }

  /** A stream that is a sequence of frames comes out as those frames, with
      nothing skipped and nothing left over. */
  lemma {:induction false} FramesRecovered(frames: seq<bytes>)
    requires forall i :: 0 <= i < |frames| ==> IsFrame(frames[i])
    ensures Scan(Flatten(frames)) == Scanned(frames, 0, 0, [])
    decreases |frames|
  {
    if |frames| > 0 {
      var f, tail := frames[0], Flatten(frames[1..]);
      var s := Flatten(frames);
      assert s == f + tail;
      FrameStep(f, tail);
      ScanNext(s);
      assert s[|f|..] == tail;
      FramesRecovered(frames[1..]);
      assert [f] + frames[1..] == frames;
    }
  }

  /** A whole frame at the front is handed on in one step, whatever
      follows it. */
  lemma FrameStep(f: bytes, rest: bytes)
    requires IsFrame(f)
    ensures Step(f + rest, 0, true) == Next(|f|, Some(f))
  {
    var s := f + rest;
    assert s[0..PacketHeaders.SIZE] == f[0..PacketHeaders.SIZE];
    ParseLocal(s, 0, f, 0);
    assert s[0..|f|] == f;
  }

  /** The tail kept is the end of the bytes parsed. */
  lemma {:induction false} ResidualIsTail(s: bytes)
    ensures |Scan(s).residual| <= |s| && Scan(s).residual == s[|s| - |Scan(s).residual|..]
    decreases |s|
  {
    var o := Step(s, 0, true);
    if o.Next? {
      var t := s[o.index..];
      ResidualIsTail(t);
      ScanNext(s);
      var res := Scan(t).residual;
      assert Scan(s).residual == res;
      assert t[|t| - |res|..] == s[|s| - |res|..];
    }
  }

  /** A frame encoded by `getBytes` from a well-formed packet with the
      default magic that is not an ACK is one the reader hands on whole. */
  lemma EncodedIsFrame(p: Packet)
    requires WellFormed(p) && p.header.magic == DEFAULT_MAGIC && p.header.ptype != TYPE_ACK
    ensures Packets.GetBytes(p).Success? && IsFrame(Packets.GetBytes(p).value)
  {
    WellFormedEncodes(p);
    var f := Packets.GetBytes(p).value;
    HeaderRoundTrip(p.header);
    assert f[0..PacketHeaders.SIZE] == PacketHeaders.GetBytes(p.header)[0..PacketHeaders.SIZE];
    ParseLocal(f, 0, PacketHeaders.GetBytes(p.header), 0);
  }

  /** Combining the result of a prefix with the result of what followed its
      tail. */
  function Join(a: Scanned, b: Scanned): Scanned
  {
    Scanned(a.frames + b.frames, a.skipped + b.skipped, a.acked + b.acked, b.residual)
  }

  /** Steps only look at the bytes from the cursor on, and every step that
      is not a stash stays valid when more bytes follow. */
  lemma StepExtends(s: bytes, b: bytes)
    requires |s| > 0
    requires !Step(s, 0, true).Stashed?
    ensures Step(s + b, 0, true) == Step(s, 0, true)
  {
    assert (s + b)[0..PacketHeaders.SIZE] == s[0..PacketHeaders.SIZE];
    ParseLocal(s + b, 0, s, 0);
    if Step(s, 0, true).Next? && Step(s, 0, true).emitted.Some? {
      var k := Step(s, 0, true).index;
      assert (s + b)[0..k] == s[0..k];
    }
  }

  lemma CreditJoin(k: nat, emitted: Option<bytes>, a: Scanned, b: Scanned)
    ensures Join(Credit(k, emitted, a), b) == Credit(k, emitted, Join(a, b))
  {
    if emitted.Some? {
      assert [emitted.value] + (a.frames + b.frames) == ([emitted.value] + a.frames) + b.frames;
    }
  }

  /** Parsing in two installments gives the same frames, skips and tail as
      parsing everything at once: how the socket splits the stream does not
      matter. */
  lemma {:induction false} ChunkingIrrelevant(s: bytes, b: bytes)
    ensures Scan(s + b) == Join(Scan(s), Scan(Scan(s).residual + b))
    decreases |s|
  {
    if |s| == 0 {
      assert [] + b == b;
      assert Join(Scanned([], 0, 0, []), Scan(b)) == Scan(b);
    } else if Step(s, 0, true).Stashed? {
      StashedChunk(s, b);
    } else {
      var k := Step(s, 0, true).index;
      ChunkingIrrelevant(s[k..], b);
      NextChunk(s, b);
    }
  }

  /** A stretch kept whole is parsed again from its start with the next
      chunk behind it. */
  lemma StashedChunk(s: bytes, b: bytes)
    requires |s| > 0 && Step(s, 0, true).Stashed?
    ensures Scan(s + b) == Join(Scan(s), Scan(Scan(s).residual + b))
  {
    assert Scan(s).residual == s;
    var r := Scan(s + b);
    assert Join(Scan(s), r) == Scanned(r.frames, r.skipped, r.acked, r.residual);
  }

  /** A step that moves forward takes the same step with the next chunk
      behind, so the claim for the rest carries over. */
  lemma NextChunk(s: bytes, b: bytes)
    requires |s| > 0 && Step(s, 0, true).Next?
    requires var k := Step(s, 0, true).index;
      Scan(s[k..] + b) == Join(Scan(s[k..]), Scan(Scan(s[k..]).residual + b))
    ensures Scan(s + b) == Join(Scan(s), Scan(Scan(s).residual + b))
  {
    var k := Step(s, 0, true).index;
    var emitted := Step(s, 0, true).emitted;
    ScanExtended(s, b);
    ScanNext(s);
    var a := Scan(s[k..]);
    CreditJoin(k, emitted, a, Scan(a.residual + b));
  }

  lemma ScanExtended(s: bytes, b: bytes)
    requires |s| > 0 && Step(s, 0, true).Next?
    ensures var k := Step(s, 0, true).index;
      Scan(s + b) == Credit(k, Step(s, 0, true).emitted, Scan(s[k..] + b))
  {
    var k := Step(s, 0, true).index;
    StepExtends(s, b);
    assert (s + b)[k..] == s[k..] + b;
    ScanNext(s + b);
  }

  lemma ScanNext(s: bytes)
    requires Step(s, 0, true).Next?
    ensures var k := Step(s, 0, true).index;
      Scan(s) == Credit(k, Step(s, 0, true).emitted, Scan(s[k..]))
  {
  }

  /** `parseData`: the tail kept from last time and the new chunk go through
      the 8192-byte buffer, which overflows when they do not fit. */
  function ParseData(residual: bytes, data: bytes): (r: Result<Scanned>)
    ensures r.Failure? <==> |residual| + |data| > BUFFER_SIZE
    ensures r.Success? ==> |r.value.residual| <= BUFFER_SIZE
    ensures r.Success? ==>
      TotalLength(r.value.frames) + r.value.skipped + r.value.acked + |r.value.residual| == |residual| + |data|
  {
    if |residual| + |data| > BUFFER_SIZE then Failure(BufferOverflow)
    else Success(Scan(residual + data))
  }

  /** The data thread: chunks in queue order, each parsed after the tail of
      the previous one; the first overflow ends it. */
  function Feed(residual: bytes, chunks: seq<bytes>): (r: Result<Scanned>)
    decreases |chunks|
  {
    if |chunks| == 0 then Success(Scanned([], 0, 0, residual))
    else
      var a := ParseData(residual, chunks[0]);
      if a.Failure? then a
      else
        var b := Feed(a.value.residual, chunks[1..]);
        if b.Failure? then b else Success(Join(a.value, b.value))
  }

  /** When no chunk overflows the buffer, the thread hands on exactly what
      parsing the whole stream at once would. */
  lemma {:induction false} FeedIsScan(residual: bytes, chunks: seq<bytes>)
    requires |chunks| > 0 && Feed(residual, chunks).Success?
    ensures Feed(residual, chunks).value == Scan(residual + Flatten(chunks))
    decreases |chunks|
  {
    var x := residual + chunks[0];
    var rest := chunks[1..];
    var a := FeedFirst(residual, chunks);
    assert Flatten(chunks) == chunks[0] + Flatten(rest);
    ConcatAssoc(residual, chunks[0], Flatten(rest));
    if |rest| == 0 {
      assert x + Flatten(rest) == x;
      assert a.frames + [] == a.frames;
    } else {
      FeedIsScan(a.residual, rest);
      ChunkingIrrelevant(x, Flatten(rest));
    }
  }

  lemma ConcatAssoc(a: bytes, b: bytes, c: bytes)
    ensures a + (b + c) == (a + b) + c
  {
  }

  /** One round of the data thread: the first chunk is parsed after the
      old tail, and the rest follows the new tail. */
  lemma FeedFirst(residual: bytes, chunks: seq<bytes>) returns (a: Scanned)
    requires |chunks| > 0 && Feed(residual, chunks).Success?
    ensures a == Scan(residual + chunks[0])
    ensures Feed(a.residual, chunks[1..]).Success?
    ensures Feed(residual, chunks).value == Join(a, Feed(a.residual, chunks[1..]).value)
  {
    a := Scan(residual + chunks[0]);
    assert ParseData(residual, chunks[0]) == Success(a);
  }

  /** The frame the data thread's `stop` enqueues to wake itself: an ACK
      header with the default magic and no body. */
  const Sentinel: bytes := PacketHeaders.GetBytes(PacketHeaders.DefaultBuilder())

  lemma SentinelIsBuilt()
    ensures Packets.GetBytes(NewBuilder(TYPE_ACK, 0, 0, 0)) == Success(Sentinel)
  {
    var p := NewBuilder(TYPE_ACK, 0, 0, 0);
    assert p.header == PacketHeaders.DefaultBuilder();
    assert (Prefix(p) + p.body)[..PacketHeaders.SIZE] == Sentinel;
  }

  /** The sentinel is consumed whole and never handed on: appended to a
      stream that left no tail, it changes nothing but the ACK count. */
  lemma SentinelConsumed(s: bytes)
    requires Scan(s).residual == []
    ensures Scan(s + Sentinel).frames == Scan(s).frames
    ensures Scan(s + Sentinel).residual == []
  {
    var h := PacketHeaders.DefaultBuilder();
    HeaderRoundTrip(h);
    assert PacketHeaders.GetBytes(h)[0..PacketHeaders.SIZE] == PacketHeaders.GetBytes(h);
    assert Step(Sentinel, 0, true) == Next(PacketHeaders.SIZE, None);
    assert Sentinel[PacketHeaders.SIZE..] == [];
    ChunkingIrrelevant(s, Sentinel);
    assert [] + Sentinel == Sentinel;
    assert s[..|s|] + [] == s;
  }
}
