/** Length-prefixed framing over a chunked connection (net/kcp-socket.go). Every ReceiveUDP makes a
    fresh buffered reader, so whatever that reader holds when the call returns is lost. */
module Framing {
  import opened Common

  type Byte = b: int | 0 <= b < 256

  type Bytes = seq<Byte>

  /** The size of the buffers in bufio. */
  const BUFFER_SIZE: nat := 4096

  const UINT32_LIMIT: nat := 0x1_0000_0000

  datatype ReadError = EOF | UnexpectedEOF

  // ----- Frames -----

  function BigEndian(n: nat): (bs: Bytes)
    requires n < UINT32_LIMIT
    ensures |bs| == 4
  {
    [n / 0x100_0000, n / 0x1_0000 % 0x100, n / 0x100 % 0x100, n % 0x100]
  }

  function FromBigEndian(bs: Bytes): (n: nat)
    requires |bs| == 4
    ensures n < UINT32_LIMIT
  {
    var a: nat, b: nat, c: nat, d: nat := bs[0], bs[1], bs[2], bs[3];
    ((a * 0x100 + b) * 0x100 + c) * 0x100 + d
  }

  lemma BigEndianRoundTrip(n: nat)
    requires n < UINT32_LIMIT
    ensures FromBigEndian(BigEndian(n)) == n
  {
    var a, b := n / 0x100, n / 0x1_0000;
    assert n == a * 0x100 + n % 0x100;
    assert a == b * 0x100 + a % 0x100;
    assert b == n / 0x100_0000 * 0x100 + b % 0x100;
  }

  /** What SendUDP puts on the wire; the length is truncated to 32 bits. */
  function Frame(message: Bytes): Bytes {
    BigEndian(|message| % UINT32_LIMIT) + message
  }

  /** The layout of a frame: four bytes, the highest first, give the length modulo 2^32; the message
      follows. */
  lemma FrameLayout(message: Bytes)
    ensures |Frame(message)| == 4 + |message| && Frame(message)[4..] == message
    ensures var bytes := Frame(message);
            var a: int, b: int, c: int, d: int := bytes[0], bytes[1], bytes[2], bytes[3];
            a * 0x100_0000 + b * 0x1_0000 + c * 0x100 + d == |message| % 0x1_0000_0000
  {
    var n := |message| % UINT32_LIMIT;
    var a, b := n / 0x100, n / 0x1_0000;
    assert n == a * 0x100 + n % 0x100;
    assert a == b * 0x100 + a % 0x100;
    assert b == n / 0x100_0000 * 0x100 + b % 0x100;
  }

  lemma HeaderOf(message: Bytes) returns (head: Bytes)
    requires |message| < UINT32_LIMIT
    ensures |head| == 4 && FromBigEndian(head) == |message| && Frame(message) == head + message
  {
    head := BigEndian(|message|);
    BigEndianRoundTrip(|message|);
  }

  /** What the stream itself says about the next message, however it is cut into chunks. */
  function NextMessage(stream: Bytes): Result<Bytes, ReadError> {
    if |stream| < 4 then Err(ShortRead(stream))
    else
      var length := FromBigEndian(stream[..4]);
      var body := stream[4..];
      if |body| >= length then Ok(body[..length])
      else Err(ShortRead(body))
  }

  /** A frame is read back as its message exactly when the length fits in 32 bits. */
  lemma FrameRoundTrip(message: Bytes, rest: Bytes)
    ensures NextMessage(Frame(message) + rest) == Ok(message) <==> |message| < UINT32_LIMIT
    ensures |message| >= UINT32_LIMIT ==>
              NextMessage(Frame(message) + rest) == Ok(message[..|message| % UINT32_LIMIT])
  {
    var n := |message| % UINT32_LIMIT;
    var stream := Frame(message) + rest;
    BigEndianRoundTrip(n);
    assert stream[..4] == BigEndian(n);
    assert stream[4..] == message + rest;
    assert (message + rest)[..n] == message[..n];
    if |message| < UINT32_LIMIT { assert message[..n] == message; }
  }

  // ----- Reading, as functions of the buffered bytes and the chunks still on the connection -----

  /** The bytes held by the reader, and the chunks not yet read. */
  datatype Input = Input(buffered: Bytes, chunks: seq<Bytes>)

  function Stream(input: Input): Bytes {
    input.buffered + Flat(input.chunks)
  }

  predicate NoEmptyChunk(chunks: seq<Bytes>) {
    forall i :: 0 <= i < |chunks| ==> chunks[i] != []
  }

  /** A connection read takes from the first chunk only. */
  function TakeFrom(chunks: seq<Bytes>, max: nat): (Bytes, seq<Bytes>)
    requires chunks != []
  {
    if |chunks[0]| <= max then (chunks[0], chunks[1..])
    else (chunks[0][..max], [chunks[0][max..]] + chunks[1..])
  }

  /** bufio.Reader.Read: copy from the buffer; else a large read goes straight through; else one
      connection read refills the buffer. `None` is the end of the stream. */
  function ReadSome(input: Input, want: nat): Option<(Bytes, Input)>
    requires want > 0
  {
    if input.buffered != [] then
      var n := if want <= |input.buffered| then want else |input.buffered|;
      Some((input.buffered[..n], Input(input.buffered[n..], input.chunks)))
    else if input.chunks == [] then None
    else if want >= BUFFER_SIZE then
      var (data, rest) := TakeFrom(input.chunks, want);
      Some((data, Input([], rest)))
    else
      var (data, rest) := TakeFrom(input.chunks, BUFFER_SIZE);
      var n := if want <= |data| then want else |data|;
      Some((data[..n], Input(data[n..], rest)))
  }

  lemma TakeFromKeepsStream(chunks: seq<Bytes>, max: nat)
    requires chunks != [] && NoEmptyChunk(chunks) && max > 0
    ensures var (data, rest) := TakeFrom(chunks, max);
            data + Flat(rest) == Flat(chunks) && NoEmptyChunk(rest) && 0 < |data| <= max
  {
    var (data, rest) := TakeFrom(chunks, max);
    if |chunks[0]| > max {
      assert rest[1..] == chunks[1..];
      assert chunks[0] == data + rest[0];
    }
  }

  lemma ReadSomeKeepsStream(input: Input, want: nat)
    requires want > 0 && NoEmptyChunk(input.chunks)
    ensures var got := ReadSome(input, want);
            && (got.None? <==> Stream(input) == [])
            && (got.Some? ==>
                  var (data, left) := got.value;
                  data + Stream(left) == Stream(input) && 0 < |data| <= want && NoEmptyChunk(left.chunks))
  {
    if input.buffered == [] && input.chunks != [] {
      TakeFromKeepsStream(input.chunks, if want >= BUFFER_SIZE then want else BUFFER_SIZE);
    }
  }

  /** io.ReadFull: the bytes read, possibly too few, and what is left. */
  function ReadFull(input: Input, want: nat): (Bytes, Input)
    requires NoEmptyChunk(input.chunks)
    decreases want
  {
    if want == 0 then ([], input)
    else
      ReadSomeKeepsStream(input, want);
      match ReadSome(input, want)
      case None => ([], input)
      case Some((data, left)) =>
        var (more, left') := ReadFull(left, want - |data|);
        (data + more, left')
  }

  /** ReadFull delivers a prefix of the stream, complete unless the stream is too short. */
  lemma {:induction false} ReadFullIsPrefix(input: Input, want: nat)
    requires NoEmptyChunk(input.chunks)
    ensures var (data, left) := ReadFull(input, want);
            && data + Stream(left) == Stream(input) && NoEmptyChunk(left.chunks)
            && |data| == (if want <= |Stream(input)| then want else |Stream(input)|)
    decreases want
  {
    if want > 0 {
      ReadSomeKeepsStream(input, want);
      var got := ReadSome(input, want);
      if got.Some? {
        var (data, left) := got.value;
        ReadFullIsPrefix(left, want - |data|);
        ReadFullGoesOn(input, want, data, left);
        var (more, left') := ReadFull(left, want - |data|);
        Glue(data, more, Stream(left'), Stream(left), Stream(input));
      }
    }
  }

  lemma ReadFullGoesOn(input: Input, want: nat, data: Bytes, left: Input)
    requires NoEmptyChunk(input.chunks) && want > 0 && ReadSome(input, want) == Some((data, left))
    ensures NoEmptyChunk(left.chunks) && |data| <= want
    ensures var (more, left') := ReadFull(left, want - |data|);
            ReadFull(input, want) == (data + more, left')
  {
    ReadSomeKeepsStream(input, want);
  }

  lemma Glue(a: Bytes, b: Bytes, end: Bytes, middle: Bytes, whole: Bytes)
    requires b + end == middle && a + middle == whole
    ensures (a + b) + end == whole
  {
  }

  // ----- Reading stops at a chunk boundary -----

  predicate Behind(chunks: seq<Bytes>, tail: seq<Bytes>) {
    |tail| <= |chunks| && chunks[|chunks| - |tail|..] == tail
  }

  /** The bytes of the stream in front of the chunks of `tail`. */
  function Ahead(input: Input, tail: seq<Bytes>): int {
    |Stream(input)| - |Flat(tail)|
  }

  lemma BehindSplits(chunks: seq<Bytes>, tail: seq<Bytes>)
    requires Behind(chunks, tail)
    ensures Flat(chunks) == Flat(chunks[..|chunks| - |tail|]) + Flat(tail)
  {
    FlatSplit(chunks, |chunks| - |tail|);
  }

  lemma FlatOfNonEmpty(chunks: seq<Bytes>)
    requires NoEmptyChunk(chunks)
    ensures Flat(chunks) == [] <==> chunks == []
  {
  }

  lemma ReadSomeStaysAhead(input: Input, want: nat, tail: seq<Bytes>)
    requires NoEmptyChunk(input.chunks) && Behind(input.chunks, tail) && 0 < want <= Ahead(input, tail)
    ensures ReadSome(input, want).Some? && Behind(ReadSome(input, want).value.1.chunks, tail)
  {
    if input.buffered == [] {
      assert |input.chunks| > |tail|;
      var n := |input.chunks| - |tail|;
      assert input.chunks[1..][n - 1..] == tail;
    }
  }

  /** A read that asks for no more than what lies ahead of `tail` leaves those chunks alone. */
  lemma {:induction false} ReadFullStaysAhead(input: Input, want: nat, tail: seq<Bytes>)
    requires NoEmptyChunk(input.chunks) && Behind(input.chunks, tail) && want <= Ahead(input, tail)
    ensures Behind(ReadFull(input, want).1.chunks, tail)
    decreases want
  {
    if want > 0 {
      ReadSomeStaysAhead(input, want, tail);
      var (data, left) := ReadSome(input, want).value;
      ReadSomeCounts(input, want, tail);
      ReadFullStaysAhead(left, want - |data|, tail);
    }
  }

  lemma ReadSomeCounts(input: Input, want: nat, tail: seq<Bytes>)
    requires NoEmptyChunk(input.chunks) && want > 0 && ReadSome(input, want).Some?
    ensures var (data, left) := ReadSome(input, want).value;
            0 < |data| <= want && NoEmptyChunk(left.chunks) && Ahead(left, tail) == Ahead(input, tail) - |data|
  {
    ReadSomeKeepsStream(input, want);
  }

  lemma ReadFullCounts(input: Input, want: nat, tail: seq<Bytes>)
    requires NoEmptyChunk(input.chunks) && want <= |Stream(input)|
    ensures |ReadFull(input, want).0| == want
    ensures Ahead(ReadFull(input, want).1, tail) == Ahead(input, tail) - want
  {
    ReadFullIsPrefix(input, want);
  }

  lemma NothingAhead(input: Input, tail: seq<Bytes>)
    requires NoEmptyChunk(input.chunks) && Behind(input.chunks, tail) && Ahead(input, tail) == 0
    ensures input == Input([], tail)
  {
    BehindSplits(input.chunks, tail);
    FlatOfNonEmpty(input.chunks[..|input.chunks| - |tail|]);
  }

  // ----- ReceiveUDP -----

  /** The error of a read that got `read` when it wanted more. */
  function ShortRead(read: Bytes): ReadError {
    if read == [] then EOF else UnexpectedEOF
  }

  /** The second half of ReceiveUDP: the body of a message of known length. */
  function ReceiveBody(input: Input, length: nat): (Result<Bytes, ReadError>, Input)
    requires NoEmptyChunk(input.chunks)
  {
    var (body, left) := ReadFull(input, length);
    (if |body| < length then Err(ShortRead(body)) else Ok(body), left)
  }

  /** One ReceiveUDP: its result, and what its reader is left with. */
  function Receive(chunks: seq<Bytes>): (Result<Bytes, ReadError>, Input)
    requires NoEmptyChunk(chunks)
  {
    var start := Input([], chunks);
    ReadFullIsPrefix(start, 4);
    var (head, afterHead) := ReadFull(start, 4);
    if |head| < 4 then (Err(ShortRead(head)), afterHead) else ReceiveBody(afterHead, FromBigEndian(head))
  }

  /** The result depends on the bytes of the stream alone, not on how they are cut, and on success
      the reader has taken the frame off the front of the stream. */
  lemma ReceiveReadsTheStream(chunks: seq<Bytes>)
    requires NoEmptyChunk(chunks)
    ensures var (result, left) := Receive(chunks);
            && result == NextMessage(Flat(chunks)) && NoEmptyChunk(left.chunks)
            && (result.Ok? ==> Stream(left) == Flat(chunks)[4 + |result.value|..])
  {
    var start := Input([], chunks);
    assert Stream(start) == Flat(chunks);
    ReadFullSplits(start, 4);
    var (head, afterHead) := ReadFull(start, 4);
    if |head| == 4 {
      BodyReadsTheStream(afterHead, FromBigEndian(head));
      var result := ReceiveBody(afterHead, FromBigEndian(head)).0;
      if result.Ok? { DropTwice(Flat(chunks), 4, |result.value|); }
    }
  }

  lemma BodyReadsTheStream(input: Input, length: nat)
    requires NoEmptyChunk(input.chunks)
    ensures var (result, left) := ReceiveBody(input, length); var stream := Stream(input);
            && result == (if |stream| >= length then Ok(stream[..length]) else Err(ShortRead(stream)))
            && NoEmptyChunk(left.chunks)
            && (result.Ok? ==> Stream(left) == stream[|result.value|..])
  {
    ReadFullSplits(input, length);
  }

  /** ReadFull cuts the stream in two, as far as it goes. */
  lemma ReadFullSplits(input: Input, want: nat)
    requires NoEmptyChunk(input.chunks)
    ensures var (data, left) := ReadFull(input, want);
            && NoEmptyChunk(left.chunks)
            && (want <= |Stream(input)| ==> data == Stream(input)[..want] && Stream(left) == Stream(input)[want..])
            && (want > |Stream(input)| ==> data == Stream(input))
  {
    ReadFullIsPrefix(input, want);
    var (data, left) := ReadFull(input, want);
    assert (data + Stream(left))[..|data|] == data && (data + Stream(left))[|data|..] == Stream(left);
  }

  lemma DropTwice(s: Bytes, a: nat, b: nat)
    requires a + b <= |s|
    ensures s[a..][b..] == s[a + b..]
  {
  }

  /** When the frame ends at a chunk boundary, nothing is left in the reader and the next chunk is
      the first of the next frame. */
  lemma ReceiveStopsAtBoundary(chunks: seq<Bytes>, tail: seq<Bytes>)
    requires NoEmptyChunk(chunks) && Behind(chunks, tail)
    requires Receive(chunks).0.Ok? && |Flat(chunks)| - |Flat(tail)| == 4 + |Receive(chunks).0.value|
    ensures Receive(chunks).1 == Input([], tail)
  {
    var start := Input([], chunks);
    assert Stream(start) == Flat(chunks);
    ReadFullIsPrefix(start, 4);
    var (head, afterHead) := ReadFull(start, 4);
    ReadFullStaysAhead(start, 4, tail);
    ReadFullCounts(start, 4, tail);
    ReadFullIsPrefix(afterHead, FromBigEndian(head));
    ReadFullStaysAhead(afterHead, FromBigEndian(head), tail);
    ReadFullCounts(afterHead, FromBigEndian(head), tail);
    NothingAhead(Receive(chunks).1, tail);
  }

  // ----- When bytes are lost -----

  predicate ChunksFitBuffer(chunks: seq<Bytes>) {
    forall i :: 0 <= i < |chunks| ==> 0 < |chunks[i]| <= BUFFER_SIZE
  }

  /** With chunks no larger than the buffer, every connection read takes a whole chunk. */
  lemma {:induction false} ReadFullTakesWholeChunks(input: Input, want: nat)
    requires ChunksFitBuffer(input.chunks)
    ensures Behind(input.chunks, ReadFull(input, want).1.chunks)
    decreases want
  {
    if want > 0 {
      ReadSomeKeepsStream(input, want);
      var got := ReadSome(input, want);
      if got.Some? {
        var (data, left) := got.value;
        assert left.chunks == input.chunks || left.chunks == input.chunks[1..];
        ReadFullTakesWholeChunks(left, want - |data|);
      }
    }
  }

  lemma BehindIsTransitive(a: seq<Bytes>, b: seq<Bytes>, c: seq<Bytes>)
    requires Behind(a, b) && Behind(b, c)
    ensures Behind(a, c)
  {
  }

  lemma ReceiveTakesWholeChunks(chunks: seq<Bytes>)
    requires ChunksFitBuffer(chunks)
    ensures Behind(chunks, Receive(chunks).1.chunks)
  {
    var start := Input([], chunks);
    var (head, afterHead) := ReadFull(start, 4);
    ReadFullTakesWholeChunks(start, 4);
    ReadFullIsPrefix(start, 4);
    if |head| == 4 {
      ReadFullTakesWholeChunks(afterHead, FromBigEndian(head));
      BehindIsTransitive(chunks, afterHead.chunks, Receive(chunks).1.chunks);
    }
  }

  ghost predicate EndsAtBoundary(chunks: seq<Bytes>, length: nat) {
    exists tail :: Behind(chunks, tail) && |Flat(chunks)| - |Flat(tail)| == length
  }

  /** With chunks no larger than the buffer, a successful ReceiveUDP loses no byte exactly when the
      frame it reads ends where a chunk ends. */
  lemma LosesNothingExactlyAtBoundary(chunks: seq<Bytes>)
    requires ChunksFitBuffer(chunks) && NextMessage(Flat(chunks)).Ok?
    ensures Receive(chunks).0 == NextMessage(Flat(chunks))
    ensures Receive(chunks).1.buffered == []
            <==> EndsAtBoundary(chunks, 4 + |NextMessage(Flat(chunks)).value|)
  {
    ReceiveReadsTheStream(chunks);
    ReceiveTakesWholeChunks(chunks);
    var (result, left) := Receive(chunks);
    var length := 4 + |result.value|;
    if EndsAtBoundary(chunks, length) {
      var tail :| Behind(chunks, tail) && |Flat(chunks)| - |Flat(tail)| == length;
      ReceiveStopsAtBoundary(chunks, tail);
    }
  }

  // ----- A whole conversation -----

  /** The event loop: ReceiveUDP until it fails. The messages delivered, the number of bytes that
      were in the readers thrown away, and the error that ends the loop. */
  function EventLoop(chunks: seq<Bytes>): (seq<Bytes>, nat, ReadError)
    requires NoEmptyChunk(chunks)
    decreases |Flat(chunks)|
  {
    ReceiveReadsTheStream(chunks);
    var (result, left) := Receive(chunks);
    match result
    case Err(error) => ([], |left.buffered|, error)
    case Ok(message) =>
      var (messages, dropped, error) := EventLoop(left.chunks);
      ([message] + messages, |left.buffered| + dropped, error)
  }

  /** The chunks of each group carry one frame, so no chunk spans two frames. */
  predicate CutWithinFrames(groups: seq<seq<Bytes>>, messages: seq<Bytes>) {
    && |groups| == |messages|
    && forall i :: 0 <= i < |messages| ==> NoEmptyChunk(groups[i]) && Flat(groups[i]) == Frame(messages[i])
  }

  predicate Short(messages: seq<Bytes>) {
    forall i :: 0 <= i < |messages| ==> |messages[i]| < UINT32_LIMIT
  }

  lemma {:induction false} GroupsHaveNoEmptyChunk(groups: seq<seq<Bytes>>)
    requires forall i :: 0 <= i < |groups| ==> NoEmptyChunk(groups[i])
    ensures NoEmptyChunk(Flat(groups))
  {
    if groups != [] { GroupsHaveNoEmptyChunk(groups[1..]); }
  }

  /** Framing round trip: whatever the lengths and however each frame is cut into chunks, the event
      loop delivers the messages sent, in order, and drops nothing before the stream ends. */
  lemma {:induction false} FramesArriveIntact(messages: seq<Bytes>, groups: seq<seq<Bytes>>)
    requires Short(messages) && CutWithinFrames(groups, messages)
    ensures NoEmptyChunk(Flat(groups))
    ensures EventLoop(Flat(groups)) == (messages, 0, EOF)
    decreases |messages|
  {
    GroupsHaveNoEmptyChunk(groups);
    if messages == [] {
      NothingArrives();
    } else {
      var tail := Flat(groups[1..]);
      FirstFrameArrives(messages[0], groups[0], tail);
      FramesArriveIntact(messages[1..], groups[1..]);
      LoopStep(groups[0] + tail, messages[0], Input([], tail));
      assert [messages[0]] + messages[1..] == messages;
    }
  }

  lemma LoopStep(chunks: seq<Bytes>, message: Bytes, left: Input)
    requires NoEmptyChunk(chunks) && NoEmptyChunk(left.chunks) && Receive(chunks) == (Ok(message), left)
    ensures var (messages, dropped, error) := EventLoop(left.chunks);
            EventLoop(chunks) == ([message] + messages, |left.buffered| + dropped, error)
  {
  }

  lemma NothingArrives()
    ensures EventLoop([]) == ([], 0, EOF)
  {
    assert ReadFull(Input([], []), 4) == ([], Input([], []));
  }

  lemma FirstFrameArrives(message: Bytes, group: seq<Bytes>, tail: seq<Bytes>)
    requires |message| < UINT32_LIMIT && Flat(group) == Frame(message) && NoEmptyChunk(group + tail)
    ensures Receive(group + tail) == (Ok(message), Input([], tail))
  {
    var chunks := group + tail;
    FlatConcat(group, tail);
    FrameRoundTrip(message, Flat(tail));
    ReceiveReadsTheStream(chunks);
    assert Behind(chunks, tail);
    ReceiveStopsAtBoundary(chunks, tail);
  }

  /** The bytes of the frames of the messages, one after the other. */
  function Frames(messages: seq<Bytes>): Bytes {
    if messages == [] then [] else Frame(messages[0]) + Frames(messages[1..])
  }

  /** The first round of a loop over a stream of frames: its message, and the stream after it. */
  lemma FirstRound(chunks: seq<Bytes>, messages: seq<Bytes>)
    requires ChunksFitBuffer(chunks) && Short(messages) && messages != [] && Flat(chunks) == Frames(messages)
    ensures var (result, left) := Receive(chunks);
            && result == Ok(messages[0]) && Behind(chunks, left.chunks) && ChunksFitBuffer(left.chunks)
            && (left.buffered == [] ==> Flat(left.chunks) == Frames(messages[1..]))
  {
    FrameRoundTrip(messages[0], Frames(messages[1..]));
    ReceiveReadsTheStream(chunks);
    ReceiveTakesWholeChunks(chunks);
    var left := Receive(chunks).1;
    assert Flat(chunks)[4 + |messages[0]|..] == Frames(messages[1..]);
    assert ChunksFitBuffer(left.chunks) by {
      assert forall i | 0 <= i < |left.chunks| :: left.chunks[i] == chunks[|chunks| - |left.chunks| + i];
    }
  }

  /** If the loop drops nothing, the chunks fall into groups of one frame each. */
  lemma {:induction false} IntactMeansCutWithinFrames(chunks: seq<Bytes>, messages: seq<Bytes>)
      returns (groups: seq<seq<Bytes>>)
    requires ChunksFitBuffer(chunks) && Short(messages) && Flat(chunks) == Frames(messages)
    requires EventLoop(chunks).1 == 0
    ensures CutWithinFrames(groups, messages) && Flat(groups) == chunks
    decreases |messages|
  {
    if messages == [] {
      FlatOfNonEmpty(chunks);
      return [];
    }
    FirstRound(chunks, messages);
    var left := Receive(chunks).1;
    LoopStep(chunks, messages[0], left);
    var later := IntactMeansCutWithinFrames(left.chunks, messages[1..]);
    var group := FirstGroup(chunks, left.chunks, messages);
    groups := [group] + later;
    FrontOfCut(group, later, messages);
  }

  lemma FirstGroup(chunks: seq<Bytes>, rest: seq<Bytes>, messages: seq<Bytes>) returns (group: seq<Bytes>)
    requires NoEmptyChunk(chunks) && Behind(chunks, rest) && messages != []
    requires Flat(chunks) == Frames(messages) && Flat(rest) == Frames(messages[1..])
    ensures chunks == group + rest && NoEmptyChunk(group) && Flat(group) == Frame(messages[0])
  {
    group := chunks[..|chunks| - |rest|];
    assert chunks == group + rest;
    FlatConcat(group, rest);
    SameFront(Flat(group), Frame(messages[0]), Frames(messages[1..]));
  }

  lemma SameFront(a: Bytes, b: Bytes, tail: Bytes)
    requires a + tail == b + tail
    ensures a == b
  {
    assert (a + tail)[..|a|] == a && (b + tail)[..|a|] == b;
  }

  lemma FrontOfCut(group: seq<Bytes>, later: seq<seq<Bytes>>, messages: seq<Bytes>)
    requires messages != [] && CutWithinFrames(later, messages[1..])
    requires NoEmptyChunk(group) && Flat(group) == Frame(messages[0])
    ensures CutWithinFrames([group] + later, messages)
  {
  }

  /** For a stream of frames in chunks no larger than the buffer, the event loop delivers every message
      and drops nothing exactly when no chunk spans two frames. */
  lemma IntactExactlyWhenCutWithinFrames(chunks: seq<Bytes>, messages: seq<Bytes>)
    requires ChunksFitBuffer(chunks) && Short(messages) && Flat(chunks) == Frames(messages)
    ensures EventLoop(chunks) == (messages, 0, EOF)
            <==> exists groups :: CutWithinFrames(groups, messages) && Flat(groups) == chunks
    ensures EventLoop(chunks).1 == 0 ==> EventLoop(chunks) == (messages, 0, EOF)
  {
    if EventLoop(chunks).1 == 0 {
      var groups := IntactMeansCutWithinFrames(chunks, messages);
    }
    forall groups | CutWithinFrames(groups, messages) && Flat(groups) == chunks
      ensures EventLoop(chunks) == (messages, 0, EOF)
    {
      FramesArriveIntact(messages, groups);
    }
  }

  /** The hypothesis is needed: of two small frames in one chunk, the second is never seen. */
  lemma MergedFramesLoseTheSecond(first: Bytes, second: Bytes)
    requires |first| + |second| + 8 <= BUFFER_SIZE
    ensures var chunks := [Frame(first) + Frame(second)];
            NoEmptyChunk(chunks) && EventLoop(chunks) == ([first], 4 + |second|, EOF)
  {
    var chunks := [Frame(first) + Frame(second)];
    FirstOfMerged(first, second);
    NothingArrives();
    LoopStep(chunks, first, Receive(chunks).1);
    assert [first] + [] == [first];
  }

  lemma FirstOfMerged(first: Bytes, second: Bytes)
    requires |first| + |second| + 8 <= BUFFER_SIZE
    ensures var (result, left) := Receive([Frame(first) + Frame(second)]);
            result == Ok(first) && left.chunks == [] && |left.buffered| == 4 + |second|
  {
    var chunks := [Frame(first) + Frame(second)];
    assert Flat(chunks) == Frame(first) + Frame(second);
    FrameRoundTrip(first, Frame(second));
    ReceiveReadsTheStream(chunks);
    ReceiveEmptiesOneChunk(chunks);
    assert Stream(Receive(chunks).1) == Receive(chunks).1.buffered;
  }

  lemma ReceiveEmptiesOneChunk(chunks: seq<Bytes>)
    requires ChunksFitBuffer(chunks) && |chunks| == 1
    ensures Receive(chunks).1.chunks == []
  {
    var start := Input([], chunks);
    var (head, afterHead) := ReadFull(start, 4);
    var (data, left) := ReadSome(start, 4).value;
    assert left.chunks == [];
    ReadSomeKeepsStream(start, 4);
    ReadFullIsPrefix(start, 4);
    ReadFullTakesWholeChunks(left, 4 - |data|);
    if |head| == 4 { ReadFullTakesWholeChunks(afterHead, FromBigEndian(head)); }
  }

  // ----- A connection that ends inside a frame -----

  /** A frame cut short is reported as such, unless nothing of it arrived or exactly its header did: the
      end of the stream right after a header reads like a clean end. */
  lemma CutFrame(message: Bytes, k: nat)
    requires |message| < UINT32_LIMIT && k < 4 + |message|
    ensures NextMessage(Frame(message)[..k]) == Err(if k == 0 || k == 4 then EOF else UnexpectedEOF)
  {
    var head := HeaderOf(message);
    CutStream(head, message, k);
  }

  lemma CutStream(head: Bytes, message: Bytes, k: nat)
    requires |head| == 4 && FromBigEndian(head) == |message| && k < 4 + |message|
    ensures NextMessage((head + message)[..k]) == Err(if k == 0 || k == 4 then EOF else UnexpectedEOF)
  {
    var stream := (head + message)[..k];
    if k >= 4 {
      assert stream[..4] == head;
      CutBody(stream, |message|);
    }
  }

  lemma CutBody(stream: Bytes, length: nat)
    requires 4 <= |stream| < 4 + length && FromBigEndian(stream[..4]) == length
    ensures NextMessage(stream) == Err(if |stream| == 4 then EOF else UnexpectedEOF)
  {
    assert |stream[4..]| == |stream| - 4;
  }

  /** The event loop on a stream that ends inside a frame: it delivers the whole messages before, and its
      error tells a clean end from a cut exactly when the cut is not right after the header. */
  lemma {:induction false} CutConversation(messages: seq<Bytes>, groups: seq<seq<Bytes>>, last: Bytes, k: nat,
                                           tail: seq<Bytes>)
    requires Short(messages) && CutWithinFrames(groups, messages)
    requires |last| < UINT32_LIMIT && k < 4 + |last| && NoEmptyChunk(tail) && Flat(tail) == Frame(last)[..k]
    ensures NoEmptyChunk(Flat(groups) + tail)
    ensures EventLoop(Flat(groups) + tail).0 == messages
    ensures EventLoop(Flat(groups) + tail).2 == if k == 0 || k == 4 then EOF else UnexpectedEOF
    decreases |messages|
  {
    if messages == [] {
      assert Flat(groups) + tail == tail;
      CutTail(last, k, tail);
    } else {
      var later := Flat(groups[1..]) + tail;
      assert Flat(groups) + tail == groups[0] + later;
      CutConversation(messages[1..], groups[1..], last, k, tail);
      FrameThenLoop(messages[0], groups[0], later);
      assert [messages[0]] + messages[1..] == messages;
    }
  }

  lemma CutTail(last: Bytes, k: nat, tail: seq<Bytes>)
    requires |last| < UINT32_LIMIT && k < 4 + |last| && NoEmptyChunk(tail) && Flat(tail) == Frame(last)[..k]
    ensures EventLoop(tail).0 == [] && EventLoop(tail).2 == if k == 0 || k == 4 then EOF else UnexpectedEOF
  {
    CutFrame(last, k);
    ReceiveReadsTheStream(tail);
  }

  lemma FrameThenLoop(message: Bytes, group: seq<Bytes>, later: seq<Bytes>)
    requires |message| < UINT32_LIMIT && Flat(group) == Frame(message) && NoEmptyChunk(group) && NoEmptyChunk(later)
    ensures NoEmptyChunk(group + later)
    ensures EventLoop(group + later).0 == [message] + EventLoop(later).0
    ensures EventLoop(group + later).2 == EventLoop(later).2
  {
    FirstFrameArrives(message, group, later);
    LoopStep(group + later, message, Input([], later));
  }

  // ----- Two frames in one chunk -----

  lemma ReadFullAtOnce(input: Input, want: nat, data: Bytes, left: Input)
    requires NoEmptyChunk(input.chunks) && want > 0 && ReadSome(input, want) == Some((data, left)) && |data| == want
    ensures ReadFull(input, want) == (data, left)
  {
    ReadFullGoesOn(input, want, data, left);
    assert ReadFull(left, 0) == ([], left) && data + [] == data;
  }

  lemma TakeFromOneChunk(chunk: Bytes, max: nat)
    ensures TakeFrom([chunk], max) == if |chunk| <= max then (chunk, []) else (chunk[..max], [chunk[max..]])
  {
    assert [chunk][1..] == [];
    if |chunk| > max { assert [chunk[max..]] + [chunk][1..] == [chunk[max..]]; }
  }

  /** One read through the buffer from a single chunk. */
  lemma ReadOneChunk(chunk: Bytes, want: nat)
    requires 0 < want <= |chunk| && want < BUFFER_SIZE
    ensures ReadSome(Input([], [chunk]), want)
            == Some((chunk[..want], if |chunk| <= BUFFER_SIZE then Input(chunk[want..], [])
                                    else Input(chunk[want..BUFFER_SIZE], [chunk[BUFFER_SIZE..]])))
  {
    TakeFromOneChunk(chunk, BUFFER_SIZE);
    if |chunk| > BUFFER_SIZE {
      var data := chunk[..BUFFER_SIZE];
      assert data[..want] == chunk[..want] && data[want..] == chunk[want..BUFFER_SIZE];
    }
  }

  /** After a header, the reader holds what is left of one buffer's worth of the chunk. */
  lemma HeaderOfOneChunk(chunk: Bytes)
    requires |chunk| >= 4
    ensures ReadFull(Input([], [chunk]), 4)
            == (chunk[..4], if |chunk| <= BUFFER_SIZE then Input(chunk[4..], [])
                            else Input(chunk[4..BUFFER_SIZE], [chunk[BUFFER_SIZE..]]))
  {
    ReadOneChunk(chunk, 4);
    var (data, left) := ReadSome(Input([], [chunk]), 4).value;
    ReadFullAtOnce(Input([], [chunk]), 4, data, left);
  }

  /** A body within the bytes held leaves the rest of them in the reader. */
  lemma BodyFromBuffer(held: Bytes, chunks: seq<Bytes>, length: nat)
    requires NoEmptyChunk(chunks) && length <= |held|
    ensures ReadFull(Input(held, chunks), length).1 == Input(held[length..], chunks)
  {
    if 0 < length { ReadFullAtOnce(Input(held, chunks), length, held[..length], Input(held[length..], chunks)); }
  }

  /** Of a body that goes on in a longer chunk, a rest of at least 4096 bytes is read directly and leaves
      the chunk behind it alone; a smaller one is read through the buffer. */
  lemma RestOfBody(chunk: Bytes, rest: nat)
    requires 0 < rest < |chunk|
    ensures var left := ReadFull(Input([], [chunk]), rest).1;
            if rest >= BUFFER_SIZE then left == Input([], [chunk[rest..]]) else left.buffered != []
  {
    var start := Input([], [chunk]);
    if rest >= BUFFER_SIZE {
      TakeFromOneChunk(chunk, rest);
      ReadFullAtOnce(start, rest, chunk[..rest], Input([], [chunk[rest..]]));
    } else {
      ReadOneChunk(chunk, rest);
      var (data, left) := ReadSome(start, rest).value;
      ReadFullAtOnce(start, rest, data, left);
    }
  }

  /** Reading past the bytes held reads the rest from the chunks. */
  lemma BodyBeyondBuffer(held: Bytes, chunks: seq<Bytes>, want: nat)
    requires NoEmptyChunk(chunks) && held != [] && |held| <= want
    ensures ReadFull(Input(held, chunks), want).1 == ReadFull(Input([], chunks), want - |held|).1
  {
    TakeAllHeld(held, chunks, want);
    ReadFullGoesOn(Input(held, chunks), want, held, Input([], chunks));
  }

  lemma TakeAllHeld(held: Bytes, chunks: seq<Bytes>, want: nat)
    requires held != [] && |held| <= want
    ensures ReadSome(Input(held, chunks), want) == Some((held, Input([], chunks)))
  {
    assert held[..|held|] == held && |held[|held|..]| == 0;
  }

  /** What the first of the frames in a chunk leaves, by its length. */
  lemma BodyOfOneChunk(chunk: Bytes, length: nat)
    requires 4 + length < |chunk|
    ensures var left := ReadFull(ReadFull(Input([], [chunk]), 4).1, length).1;
            if length == 4092 || length >= 8188 then left == Input([], [chunk[4 + length..]]) else left.buffered != []
  {
    HeaderOfOneChunk(chunk);
    if |chunk| <= BUFFER_SIZE {
      BodyFromBuffer(chunk[4..], [], length);
    } else {
      var held, next := chunk[4..BUFFER_SIZE], chunk[BUFFER_SIZE..];
      if length <= 4092 {
        BodyFromBuffer(held, [next], length);
      } else {
        BodyBeyondBuffer(held, [next], length);
        RestOfBody(next, length - 4092);
        assert next[length - 4092..] == chunk[4 + length..];
      }
    }
  }

  /** Of a frame followed by more bytes in the same chunk, nothing behind the frame is lost exactly when
      the frame is one buffer long, or its last 4096 bytes or more are read directly. */
  lemma RestSurvivesExactlyWhenReadDirectly(first: Bytes, rest: Bytes)
    requires |first| < UINT32_LIMIT && rest != []
    ensures var (result, left) := Receive([Frame(first) + rest]);
            && result == Ok(first)
            && (if |first| == 4092 || |first| >= 8188 then left == Input([], [rest]) else left.buffered != [])
  {
    var chunk := Frame(first) + rest;
    FrameRoundTrip(first, rest);
    assert Flat([chunk]) == chunk;
    ReceiveReadsTheStream([chunk]);
    FirstHeader(first, rest);
    BodyOfOneChunk(chunk, |first|);
    assert chunk[4 + |first|..] == rest;
  }

  lemma FirstHeader(first: Bytes, rest: Bytes)
    requires |first| < UINT32_LIMIT
    ensures var head := ReadFull(Input([], [Frame(first) + rest]), 4).0;
            |head| == 4 && FromBigEndian(head) == |first|
  {
    var head := HeaderOf(first);
    FrontOfChunk(head, first, rest);
  }

  lemma FrontOfChunk(head: Bytes, first: Bytes, rest: Bytes)
    requires |head| == 4
    ensures ReadFull(Input([], [head + first + rest]), 4).0 == head
  {
    HeaderOfOneChunk(head + first + rest);
  }

  /** So two frames in one chunk are both delivered, and nothing dropped, exactly for such a first one. */
  lemma MergedFramesSurviveExactlyWhenReadDirectly(first: Bytes, second: Bytes)
    requires |first| < UINT32_LIMIT && |second| < UINT32_LIMIT
    ensures var chunks := [Frame(first) + Frame(second)];
            && NoEmptyChunk(chunks)
            && (EventLoop(chunks) == ([first, second], 0, EOF) <==> |first| == 4092 || |first| >= 8188)
  {
    var chunks := [Frame(first) + Frame(second)];
    RestSurvivesExactlyWhenReadDirectly(first, Frame(second));
    var left := Receive(chunks).1;
    ReceiveReadsTheStream(chunks);
    LoopStep(chunks, first, left);
    if left == Input([], [Frame(second)]) {
      LastFrame(second);
      assert [first] + [second] == [first, second];
    }
  }

  lemma LastFrame(message: Bytes)
    requires |message| < UINT32_LIMIT
    ensures NoEmptyChunk([Frame(message)]) && EventLoop([Frame(message)]) == ([message], 0, EOF)
  {
    var frame: Bytes := Frame(message);
    assert |[[frame]][1..]| == 0 && Flat([[frame]]) == [frame];
    assert |[frame][1..]| == 0 && Flat([frame]) == frame;
    FramesArriveIntact([message], [[Frame(message)]]);
  }

  // ----- SendUDP -----

  /** The bytes held by the buffered writer, and the writes made on the connection so far. */
  datatype Output = Output(buffered: Bytes, written: seq<Bytes>)

  /** bufio.Writer.Write: fill and flush the buffer while the data does not fit; a large write on
      an empty buffer goes straight through. */
  function WriteAll(out: Output, data: Bytes): Output
    requires |out.buffered| <= BUFFER_SIZE
    decreases |data|, |out.buffered|
  {
    var room := BUFFER_SIZE - |out.buffered|;
    if |data| <= room then Output(out.buffered + data, out.written)
    else if out.buffered == [] then Output([], out.written + [data])
    else WriteAll(Output([], out.written + [out.buffered + data[..room]]), data[room..])
  }

  function Flushed(out: Output): seq<Bytes> {
    if out.buffered == [] then out.written else out.written + [out.buffered]
  }

  /** All the bytes given to the writer so far. */
  function Given(out: Output): Bytes {
    Flat(out.written) + out.buffered
  }

  lemma {:induction false} WriteAllGrows(out: Output, data: Bytes)
    requires |out.buffered| <= BUFFER_SIZE && NoEmptyChunk(out.written)
    ensures var out' := WriteAll(out, data);
            |out'.buffered| <= BUFFER_SIZE && NoEmptyChunk(out'.written) && out.written <= out'.written
    decreases |data|, |out.buffered|
  {
    var room := BUFFER_SIZE - |out.buffered|;
    if |data| > room && out.buffered != [] {
      WriteAllGrows(Output([], out.written + [out.buffered + data[..room]]), data[room..]);
    }
  }

  /** Nothing given to the writer is lost or reordered. */
  lemma {:induction false} WriteAllAppends(out: Output, data: Bytes)
    requires |out.buffered| <= BUFFER_SIZE
    ensures Given(WriteAll(out, data)) == Given(out) + data
    decreases |data|, |out.buffered|
  {
    var room := BUFFER_SIZE - |out.buffered|;
    if |data| <= room {
      AppendLast(out.written, out.buffered, data);
    } else if out.buffered == [] {
      FlatSnoc(out.written, data);
    } else {
      var chunk := out.buffered + data[..room];
      WriteAllAppends(Output([], out.written + [chunk]), data[room..]);
      FlushKeeps(out.written, out.buffered, data, room);
    }
  }

  lemma AppendLast(written: seq<Bytes>, buffered: Bytes, data: Bytes)
    ensures Flat(written) + (buffered + data) == (Flat(written) + buffered) + data
  {
  }

  lemma FlushKeeps(written: seq<Bytes>, buffered: Bytes, data: Bytes, room: nat)
    requires room <= |data|
    ensures Given(Output([], written + [buffered + data[..room]])) + data[room..]
            == (Flat(written) + buffered) + data
  {
    FlatSnoc(written, buffered + data[..room]);
    assert data == data[..room] + data[room..];
  }

  /** The writes on the connection after SendUDP of one more message. */
  function Sent(written: seq<Bytes>, message: Bytes): seq<Bytes> {
    var afterHead := WriteAll(Output([], written), BigEndian(|message| % UINT32_LIMIT));
    Flushed(WriteAll(afterHead, message))
  }

  /** SendUDP adds non-empty writes that together are exactly the frame of the message. */
  lemma SendWritesOneFrame(written: seq<Bytes>, message: Bytes)
    requires NoEmptyChunk(written)
    ensures var sent := Sent(written, message);
            && written <= sent && NoEmptyChunk(sent) && Flat(sent[|written|..]) == Frame(message)
  {
    var head := BigEndian(|message| % UINT32_LIMIT);
    var afterHead := WriteAll(Output([], written), head);
    assert afterHead == Output(head, written);
    WriteAllAppends(afterHead, message);
    WriteAllGrows(afterHead, message);
    var out := WriteAll(afterHead, message);
    var sent := Sent(written, message);
    if out.buffered != [] { FlatSnoc(out.written, out.buffered); }
    assert Flat(sent) == Flat(written) + head + message;
    FlatSplit(sent, |written|);
    assert sent[..|written|] == written;
    SameTail(Flat(written), Flat(sent[|written|..]), Frame(message), Flat(sent), head, message);
  }

  /** The writes of one message: its frame at once when it fits the buffer, else one buffer's worth and
      the rest. */
  lemma WritesOfOneFrame(message: Bytes)
    ensures Sent([], message)
            == if 4 + |message| <= 4096 then [Frame(message)] else [Frame(message)[..4096], Frame(message)[4096..]]
  {
    var head := BigEndian(|message| % UINT32_LIMIT);
    assert WriteAll(Output([], []), head) == Output(head, []);
    if |message| > 4092 {
      var first, rest := head + message[..4092], message[4092..];
      assert first == Frame(message)[..4096] && rest == Frame(message)[4096..];
      assert WriteAll(Output(head, []), message) == WriteAll(Output([], [first]), rest);
      RestIsOneWrite(first, rest);
    }
  }

  lemma RestIsOneWrite(first: Bytes, rest: Bytes)
    requires rest != []
    ensures Flushed(WriteAll(Output([], [first]), rest)) == [first, rest]
  {
    assert [first] + [rest] == [first, rest];
    assert [] + rest == rest;
  }

  lemma SameTail(front: Bytes, a: Bytes, b: Bytes, whole: Bytes, head: Bytes, message: Bytes)
    requires whole == front + a && whole == front + head + message && b == head + message
    ensures a == b
  {
    assert whole[|front|..] == a;
    assert whole[|front|..] == b;
  }

  lemma {:induction false} WriteAllShifts(written: seq<Bytes>, out: Output, data: Bytes)
    requires |out.buffered| <= BUFFER_SIZE
    ensures var out' := WriteAll(out, data);
            WriteAll(Output(out.buffered, written + out.written), data) == Output(out'.buffered, written + out'.written)
    decreases |data|, |out.buffered|
  {
    var room := BUFFER_SIZE - |out.buffered|;
    if |data| <= room {
    } else if out.buffered == [] {
      assert written + (out.written + [data]) == written + out.written + [data];
    } else {
      var chunk := out.buffered + data[..room];
      assert written + (out.written + [chunk]) == written + out.written + [chunk];
      WriteAllShifts(written, Output([], out.written + [chunk]), data[room..]);
    }
  }

  /** What SendUDP writes does not depend on what was written before. */
  lemma SentAppends(written: seq<Bytes>, message: Bytes)
    ensures Sent(written, message) == written + Sent([], message)
  {
    var head := BigEndian(|message| % UINT32_LIMIT);
    assert written + [] == written;
    assert WriteAll(Output([], []), head) == Output(head, []);
    assert WriteAll(Output([], written), head) == Output(head, written);
    WriteAllShifts(written, Output(head, []), message);
    var out := WriteAll(Output(head, []), message);
    assert written + (out.written + [out.buffered]) == written + out.written + [out.buffered];
  }

  /** The writes made by sending the messages one after the other. */
  function AllWrites(messages: seq<Bytes>): seq<Bytes> {
    if messages == [] then [] else Sent([], messages[0]) + AllWrites(messages[1..])
  }

  /** Each write reaches the other side as non-empty chunks of its own. */
  predicate Carries(pieces: seq<seq<Bytes>>, writes: seq<Bytes>) {
    && |pieces| == |writes|
    && forall i :: 0 <= i < |writes| ==> NoEmptyChunk(pieces[i]) && Flat(pieces[i]) == writes[i]
  }

  lemma {:induction false} PiecesCarryBytes(pieces: seq<seq<Bytes>>, writes: seq<Bytes>)
    requires Carries(pieces, writes)
    ensures Flat(Flat(pieces)) == Flat(writes) && NoEmptyChunk(Flat(pieces))
  {
    if pieces != [] {
      PiecesCarryBytes(pieces[1..], writes[1..]);
      FlatConcat(pieces[0], Flat(pieces[1..]));
      GroupsHaveNoEmptyChunk(pieces);
    }
  }

  lemma FirstSentArrives(message: Bytes, later: seq<Bytes>, pieces: seq<seq<Bytes>>)
    requires |message| < UINT32_LIMIT && Carries(pieces, Sent([], message) + later)
    ensures var n := |Sent([], message)|;
            && Carries(pieces[n..], later) && Flat(pieces) == Flat(pieces[..n]) + Flat(pieces[n..])
            && NoEmptyChunk(Flat(pieces)) && Receive(Flat(pieces)) == (Ok(message), Input([], Flat(pieces[n..])))
  {
    var writes := Sent([], message);
    var n := |writes|;
    SplitCarriage(pieces, writes, later);
    SendWritesOneFrame([], message);
    assert writes[0..] == writes;
    PiecesCarryBytes(pieces, writes + later);
    PiecesCarryBytes(pieces[..n], writes);
    FlatSplit(pieces, n);
    FirstFrameArrives(message, Flat(pieces[..n]), Flat(pieces[n..]));
  }

  /** End to end: send any messages with SendUDP, let the transport cut every write as it likes, and
      the event loop on the other side delivers exactly those messages. */
  lemma {:induction false} SentMessagesArrive(messages: seq<Bytes>, pieces: seq<seq<Bytes>>)
    requires Short(messages) && Carries(pieces, AllWrites(messages))
    ensures NoEmptyChunk(Flat(pieces)) && EventLoop(Flat(pieces)) == (messages, 0, EOF)
    decreases |messages|
  {
    PiecesCarryBytes(pieces, AllWrites(messages));
    if messages == [] {
      NothingArrives();
    } else {
      var n := |Sent([], messages[0])|;
      var group, tail := Flat(pieces[..n]), Flat(pieces[n..]);
      FirstSentArrives(messages[0], AllWrites(messages[1..]), pieces);
      SentMessagesArrive(messages[1..], pieces[n..]);
      LoopStep(group + tail, messages[0], Input([], tail));
      assert [messages[0]] + messages[1..] == messages;
    }
  }

  lemma SplitCarriage(pieces: seq<seq<Bytes>>, a: seq<Bytes>, b: seq<Bytes>)
    requires Carries(pieces, a + b)
    ensures Carries(pieces[..|a|], a) && Carries(pieces[|a|..], b)
  {
    assert forall i | 0 <= i < |a| :: (a + b)[i] == a[i];
    assert forall i | 0 <= i < |b| :: (a + b)[|a| + i] == b[i];
  }

  // ----- The objects -----

  /** One side of a connection: the chunks waiting to be read and the writes made. */
  class Conn {
    var incoming: seq<Bytes>
    var written: seq<Bytes>

    constructor (chunks: seq<Bytes>)
      ensures incoming == chunks && written == []
    {
      incoming, written := chunks, [];
    }

    method Read(max: nat) returns (data: Bytes, eof: bool)
      requires max > 0
      modifies this`incoming
      ensures eof <==> old(incoming) == []
      ensures eof ==> data == [] && incoming == []
      ensures !eof ==> (data, incoming) == TakeFrom(old(incoming), max)
    {
      if incoming == [] {
        return [], true;
      }
      data, incoming := TakeFrom(incoming, max).0, TakeFrom(incoming, max).1;
      eof := false;
    }

    method Write(data: Bytes)
      modifies this`written
      ensures written == old(written) + [data]
    {
      written := written + [data];
    }
  }

  class Reader {
    const conn: Conn
    var buffered: Bytes

    constructor (conn: Conn)
      ensures this.conn == conn && buffered == []
    {
      this.conn, buffered := conn, [];
    }

    ghost function View(): Input
      reads this, conn
    {
      Input(buffered, conn.incoming)
    }

    /** Fills `p` from `from` on with at least one byte, unless the stream has ended. */
    method Read(p: array<Byte>, from: nat) returns (n: nat, eof: bool)
      requires from < p.Length && NoEmptyChunk(conn.incoming)
      modifies this, conn`incoming, p
      ensures eof ==> n == 0 && ReadSome(old(View()), p.Length - from) == None
                      && View() == old(View()) && p[..] == old(p[..])
      ensures !eof ==> 0 < n <= p.Length - from && p[..from] == old(p[..from])
                       && ReadSome(old(View()), p.Length - from) == Some((p[from..from + n], View()))
    {
      var data;
      data, eof := Take(p.Length - from);
      n := |data|;
      if !eof {
        CopyTo(p, from, data);
      }
    }

    /** The bytes a read of `want` bytes hands over. */
    method Take(want: nat) returns (data: Bytes, eof: bool)
      requires want > 0 && NoEmptyChunk(conn.incoming)
      modifies this, conn`incoming
      ensures eof ==> data == [] && ReadSome(old(View()), want) == None && View() == old(View())
      ensures !eof ==> 0 < |data| <= want && ReadSome(old(View()), want) == Some((data, View()))
    {
      ReadSomeKeepsStream(View(), want);
      if buffered == [] {
        if want >= BUFFER_SIZE {
          data, eof := conn.Read(want);
          return;
        }
        data, eof := conn.Read(BUFFER_SIZE);
        if eof {
          return;
        }
        buffered := data;
      }
      var n := if want <= |buffered| then want else |buffered|;
      data, eof := buffered[..n], false;
      buffered := buffered[n..];
    }
  }

  /** Having read `filled`, reading `want` more bytes of `input` gives what `goal` says. */
  ghost predicate Reaches(goal: (Bytes, Input), filled: Bytes, input: Input, want: nat)
    requires NoEmptyChunk(input.chunks)
  {
    goal.0 == filled + ReadFull(input, want).0 && goal.1 == ReadFull(input, want).1
  }

  /** The loop of io.ReadFull is on its way to `goal`, and has reached it if it stops here. */
  ghost predicate Filling(goal: (Bytes, Input), filled: Bytes, input: Input, want: nat, eof: bool) {
    && NoEmptyChunk(input.chunks) && Reaches(goal, filled, input, want)
    && (eof || want == 0 ==> goal.0 == filled && goal.1 == input)
  }

  lemma StartsFilling(input: Input, want: nat, filled: Bytes)
    requires NoEmptyChunk(input.chunks) && filled == []
    ensures Filling(ReadFull(input, want), filled, input, want, false)
  {
  }

  lemma KeepsFilling(goal: (Bytes, Input), filled: Bytes, input: Input, want: nat, data: Bytes, input': Input)
    requires NoEmptyChunk(input.chunks) && want > 0
    requires Reaches(goal, filled, input, want) && ReadSome(input, want) == Some((data, input'))
    ensures 0 < |data| <= want && Filling(goal, filled + data, input', want - |data|, false)
  {
    ReadSomeKeepsStream(input, want);
    var (more, _) := ReadFull(input', want - |data|);
    assert filled + (data + more) == (filled + data) + more;
  }

  lemma StopsFilling(goal: (Bytes, Input), filled: Bytes, input: Input, want: nat)
    requires NoEmptyChunk(input.chunks) && want > 0 && ReadSome(input, want) == None
    requires Reaches(goal, filled, input, want)
    ensures Filling(goal, filled, input, want, true)
  {
  }

  /** One round of the loop in io.ReadFull. */
  method FillMore(r: Reader, p: array<Byte>, n: nat, ghost goal: (Bytes, Input)) returns (k: nat, eof: bool)
    requires n < p.Length && Filling(goal, p[..n], r.View(), p.Length - n, false)
    modifies r, r.conn`incoming, p
    ensures n + k <= p.Length && (eof || k > 0)
    ensures Filling(goal, p[..n + k], r.View(), p.Length - n - k, eof)
  {
    ghost var input, filled, want := r.View(), p[..n], p.Length - n;
    k, eof := r.Read(p, n);
    if eof {
      StopsFilling(goal, filled, input, want);
    } else {
      ghost var data := p[n..n + k];
      assert p[..n + k] == filled + data;
      KeepsFilling(goal, filled, input, want, data, r.View());
    }
  }

  /** io.ReadFull: fills the whole of `p`, unless the stream ends first. */
  method FillFrom(r: Reader, p: array<Byte>) returns (n: nat)
    requires NoEmptyChunk(r.conn.incoming)
    modifies r, r.conn`incoming, p
    ensures n <= p.Length && p[..n] == ReadFull(old(r.View()), p.Length).0
    ensures r.View() == ReadFull(old(r.View()), p.Length).1
    ensures NoEmptyChunk(r.conn.incoming)
  {
    n := 0;
    var eof := false;
    ghost var start := r.View();
    StartsFilling(start, p.Length, p[..n]);
    while n < p.Length && !eof
      invariant n <= p.Length && Filling(ReadFull(start, p.Length), p[..n], r.View(), p.Length - n, eof)
      decreases p.Length - n, !eof
    {
      var k;
      k, eof := FillMore(r, p, n, ReadFull(start, p.Length));
      n := n + k;
    }
  }

  /** `copy(p[at:], data)` where the data fits. */
  method CopyTo(p: array<Byte>, at: nat, data: Bytes)
    requires at + |data| <= p.Length
    modifies p
    ensures p[..at] == old(p[..at]) && p[at..at + |data|] == data
  {
    for i := 0 to |data|
      invariant p[..at] == old(p[..at]) && p[at..at + i] == data[..i]
    {
      p[at + i] := data[i];
    }
  }

  method ReceiveUDP(conn: Conn) returns (result: Result<Bytes, ReadError>)
    requires NoEmptyChunk(conn.incoming)
    modifies conn`incoming
    ensures result == Receive(old(conn.incoming)).0
    ensures conn.incoming == Receive(old(conn.incoming)).1.chunks
    ensures NoEmptyChunk(conn.incoming)
  {
    var r := new Reader(conn);
    var head := new Byte[4];
    var n := FillFrom(r, head);
    if n < 4 {
      return Err(if n == 0 then EOF else UnexpectedEOF);
    }
    assert head[..n] == head[..];
    var length := FromBigEndian(head[..]);
    var message := new Byte[length];
    n := FillFrom(r, message);
    if n < length {
      return Err(if n == 0 then EOF else UnexpectedEOF);
    }
    assert message[..n] == message[..];
    return Ok(message[..]);
  }

  /** Having delivered `done`, the loop over `chunks` delivers `all` and ends with `end`. */
  ghost predicate LoopReaches(all: seq<Bytes>, end: ReadError, done: seq<Bytes>, chunks: seq<Bytes>)
    requires NoEmptyChunk(chunks)
  {
    all == done + EventLoop(chunks).0 && end == EventLoop(chunks).2
  }

  lemma LoopGoesOn(all: seq<Bytes>, end: ReadError, done: seq<Bytes>, chunks: seq<Bytes>)
    requires NoEmptyChunk(chunks) && LoopReaches(all, end, done, chunks)
    ensures var (result, left) := Receive(chunks);
            && NoEmptyChunk(left.chunks)
            && (result.Err? ==> all == done && end == result.error)
            && (result.Ok? ==> LoopReaches(all, end, done + [result.value], left.chunks))
  {
    ReceiveReadsTheStream(chunks);
    var (result, left) := Receive(chunks);
    if result.Ok? {
      LoopStep(chunks, result.value, left);
      var rest := EventLoop(left.chunks).0;
      assert done + ([result.value] + rest) == (done + [result.value]) + rest;
    }
  }

  /** The read side of the socket: every message received is handed on, until ReceiveUDP fails. */
  method RunEventLoop(conn: Conn) returns (messages: seq<Bytes>, error: ReadError)
    requires NoEmptyChunk(conn.incoming)
    modifies conn`incoming
    ensures messages == EventLoop(old(conn.incoming)).0 && error == EventLoop(old(conn.incoming)).2
  {
    messages := [];
    ghost var all, end := EventLoop(conn.incoming).0, EventLoop(conn.incoming).2;
    while true
      invariant NoEmptyChunk(conn.incoming) && LoopReaches(all, end, messages, conn.incoming)
      decreases |Flat(conn.incoming)|
    {
      ReceiveReadsTheStream(conn.incoming);
      LoopGoesOn(all, end, messages, conn.incoming);
      var result := ReceiveUDP(conn);
      match result {
        case Err(e) => return messages, e;
        case Ok(message) => messages := messages + [message];
      }
    }
  }

  class Writer {
    const conn: Conn
    var buffered: Bytes

    constructor (conn: Conn)
      ensures this.conn == conn && buffered == []
    {
      this.conn, buffered := conn, [];
    }

    ghost function View(): Output
      reads this, conn
    {
      Output(buffered, conn.written)
    }

    method Write(data: Bytes)
      requires |buffered| <= BUFFER_SIZE
      modifies this, conn`written
      ensures View() == WriteAll(old(View()), data) && |buffered| <= BUFFER_SIZE
    {
      var p := data;
      ghost var start := View();
      while |p| > BUFFER_SIZE - |buffered|
        invariant |buffered| <= BUFFER_SIZE
        invariant WriteAll(View(), p) == WriteAll(start, data)
        decreases |p|, |buffered|
      {
        if buffered == [] {
          conn.Write(p);
          p := [];
        } else {
          var n := BUFFER_SIZE - |buffered|;
          buffered := buffered + p[..n];
          Flush();
          p := p[n..];
        }
      }
      buffered := buffered + p;
    }

    method Flush()
      modifies this, conn`written
      ensures conn.written == Flushed(old(View())) && buffered == []
    {
      if buffered != [] {
        conn.Write(buffered);
        buffered := [];
      }
    }
  }

  method SendUDP(conn: Conn, message: Bytes)
    modifies conn`written
    ensures conn.written == old(conn.written) + Sent([], message)
  {
    var w := new Writer(conn);
    w.Write(BigEndian(|message| % UINT32_LIMIT));
    w.Write(message);
    w.Flush();
    SentAppends(old(conn.written), message);
  }
}
