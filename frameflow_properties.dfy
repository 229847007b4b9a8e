/** What `data_received` promises, stated over the step function `Receive`
    and the chunk sequence function `Feed` of module FrameFlow: header
    parsing when idle, accumulation, frame emission, leftover handling, one
    frame per call, and reassembly of a fragmented frame. */
module FrameFlowProperties {
  import opened Wire
  import opened FrameFlow

  /** The bytes of a frame on the wire: its little-endian length, then itself. */
  function Framed(p: Payload): (w: seq<Byte>)
    requires |p| < U32Limit
    ensures |w| == U32Size + |p|
    ensures w[..U32Size] == EncodeU32LE(|p|) && w[U32Size..] == p
  {
    EncodeU32LE(|p|) + p
  }

  /** All chunks joined in order: the byte stream they split. */
  function Concat(chunks: seq<seq<Byte>>): (s: seq<Byte>)
    ensures chunks != [] ==> chunks[0] <= s
  {
    if chunks == [] then [] else chunks[0] + Concat(chunks[1..])
  }

  /** The transport never delivers an empty chunk. */
  ghost predicate NonEmptyChunks(chunks: seq<seq<Byte>>) {
    forall i :: 0 <= i < |chunks| ==> chunks[i] != []
  }

  /** Each feedback write is 4 bytes that read back as the value 1024. */
  lemma FeedbackWord()
    ensures |Feedback| == U32Size
    ensures UnpackU32LE(Feedback) == Value(1024)
  {
    DecodeEncodeU32(FeedbackValue);
  }

  /** When idle, a chunk of at least 4 bytes is handled as if its first 4
      bytes had set `bufferLength` and the rest arrived while receiving. */
  lemma IdleReadsHeader(data: seq<Byte>)
    requires |data| >= U32Size
    ensures Receive(Idle, data)
         == Receive(RxState(true, [], DecodeU32LE(data[..U32Size])), data[U32Size..])
  {
  }

  /** When idle, a chunk shorter than 4 bytes makes the header unpack fail;
      only the receiving flag has been set by then. */
  lemma ShortChunkWhenIdle(data: seq<Byte>)
    requires |data| < U32Size
    ensures Receive(Idle, data) == Reaction(RxState(true, [], 0), None, HeaderError)
  {
  }

  /** Header bytes are not carried over between calls: a header split over
      two chunks fails in the first call and the connection ends there. */
  lemma SplitHeaderFails(a: seq<Byte>, b: seq<Byte>)
    requires |a| < U32Size
    ensures Feed(Idle, [a, b]) == Run(RxState(true, [], 0), [], [], HeaderError)
  {
  }

  /** While the buffered bytes stay below `bufferLength`, a call only appends
      the chunk: no frame, no feedback, length and flag unchanged. */
  lemma Accumulates(s: RxState, data: seq<Byte>)
    requires s.Valid() && s.receivingData
    requires |s.dataBuffer + data| < s.bufferLength
    ensures Receive(s, data) == Reaction(s.(dataBuffer := s.dataBuffer + data), None, Ok)
  {
  }

  /** While receiving, a frame comes out exactly when the buffered bytes reach
      `bufferLength` and any leftover holds a whole header; the frame is the
      first `bufferLength` buffered bytes. */
  lemma FrameWhenComplete(s: RxState, data: seq<Byte>)
    requires s.Valid() && s.receivingData
    ensures var buffer, length := s.dataBuffer + data, s.bufferLength;
            Receive(s, data).frame.Some? <==>
              |buffer| >= length && (|buffer| == length || |buffer| - length >= U32Size)
    ensures var buffer, length := s.dataBuffer + data, s.bufferLength;
            Receive(s, data).frame.Some? ==> Receive(s, data).frame.value == buffer[..length]
  {
  }

  /** A frame that uses up the buffer exactly returns the receiver to idle. */
  lemma ExactFrameEndsIdle(s: RxState, data: seq<Byte>)
    requires s.Valid() && s.receivingData
    requires |s.dataBuffer + data| == s.bufferLength
    ensures Receive(s, data) == Reaction(Idle, Some(s.dataBuffer + data), Ok)
  {
    assert (s.dataBuffer + data)[..s.bufferLength] == s.dataBuffer + data;
  }

  /** Leftover bytes after a frame: the next 4 are parsed at once as the new
      length, everything after them becomes the new buffer, and the receiver
      stays receiving; fewer than 4 leftover bytes raise and nothing is
      handed over. */
  lemma Leftover(s: RxState, data: seq<Byte>)
    requires s.Valid() && s.receivingData
    requires |s.dataBuffer + data| > s.bufferLength
    ensures var buffer, length := s.dataBuffer + data, s.bufferLength;
            Receive(s, data)
              == if |buffer| - length >= U32Size then
                   Reaction(RxState(true, buffer[length + U32Size..],
                                    DecodeU32LE(buffer[length..length + U32Size])),
                            Some(buffer[..length]), Ok)
                 else
                   Reaction(RxState(true, buffer, length), None, HeaderError)
  {
    var buffer, length := s.dataBuffer + data, s.bufferLength;
    var rest := buffer[length..];
    if |rest| >= U32Size {
      assert Take(rest, U32Size) == buffer[length..length + U32Size];
      assert rest[U32Size..] == buffer[length + U32Size..];
    }
  }

  /** One frame per call: two whole frames in one chunk give only the first;
      the second stays buffered although it is complete. */
  lemma SecondFrameWaits(p1: Payload, p2: Payload)
    requires |p1| < U32Limit && |p2| < U32Limit
    ensures Receive(Idle, Framed(p1) + Framed(p2))
         == Reaction(RxState(true, p2, |p2|), Some(p1), Ok)
  {
    var data := Framed(p1) + Framed(p2);
    var body := p1 + Framed(p2);
    assert data[..U32Size] == EncodeU32LE(|p1|);
    assert data[U32Size..] == body;
    DecodeEncodeU32(|p1|);
    IdleReadsHeader(data);
    var s := RxState(true, [], |p1|);
    assert Receive(Idle, data) == Receive(s, body);
    assert s.dataBuffer + body == body;
    assert body[..|p1|] == p1;
    assert body[|p1|..|p1| + U32Size] == EncodeU32LE(|p2|);
    assert body[|p1| + U32Size..] == p2;
    DecodeEncodeU32(|p2|);
    Leftover(s, body);
  }

  /** A complete frame left in the buffer comes out on the next call unless
      that call's chunk is 1 to 3 bytes long, which becomes a short header. */
  lemma BufferedFrameOnNextCall(p: Payload, data: seq<Byte>)
    requires |p| < U32Limit
    ensures Receive(RxState(true, p, |p|), data).frame
         == if |data| == 0 || |data| >= U32Size then Some(p) else None
  {
    FrameWhenComplete(RxState(true, p, |p|), data);
  }

  /** Reassembly of the payload part: from a receiver holding the first k
      payload bytes, chunks that make up the rest yield the frame, one
      feedback write, and an idle receiver. */
  lemma {:induction false} FeedRestOfPayload(p: Payload, k: nat, chunks: seq<seq<Byte>>)
    requires |p| < U32Limit && k <= |p|
    requires chunks != [] && NonEmptyChunks(chunks)
    requires Concat(chunks) == p[k..]
    ensures Feed(RxState(true, p[..k], |p|), chunks) == Run(Idle, [p], [Feedback], Ok)
    decreases |chunks|
  {
    var s, c := RxState(true, p[..k], |p|), chunks[0];
    assert Concat(chunks) == c + Concat(chunks[1..]);
    if |chunks| == 1 {
      assert c == p[k..];
      assert p[..k] + c == p;
      ExactFrameEndsIdle(s, c);
    } else {
      assert chunks[1..][0] == chunks[1] != [];
      assert Concat(chunks[1..]) != [];
      var k' := k + |c|;
      assert p[..k] + c == p[..k'];
      Accumulates(s, c);
      assert Concat(chunks[1..]) == p[k'..];
      FeedRestOfPayload(p, k', chunks[1..]);
    }
  }

  /** Fragmentation: `Framed(p)` split into non-empty chunks, the first of
      which holds the whole header, yields exactly one frame equal to `p` and
      one feedback write, and leaves the receiver idle. */
  lemma Fragmentation(p: Payload, chunks: seq<seq<Byte>>)
    requires |p| < U32Limit
    requires chunks != [] && NonEmptyChunks(chunks) && |chunks[0]| >= U32Size
    requires Concat(chunks) == Framed(p)
    ensures Feed(Idle, chunks) == Run(Idle, [p], [Feedback], Ok)
  {
    var c := chunks[0];
    var j := |c| - U32Size;
    assert Concat(chunks) == c + Concat(chunks[1..]);
    assert c[..U32Size] == EncodeU32LE(|p|);
    DecodeEncodeU32(|p|);
    IdleReadsHeader(c);
    assert c[U32Size..] == p[..j];
    var s := RxState(true, [], |p|);
    assert DecodeU32LE(c[..U32Size]) == |p|;
    assert Receive(Idle, c) == Receive(s, p[..j]);
    assert [] + p[..j] == p[..j];
    if |chunks| == 1 {
      assert p[..j] == p;
      ExactFrameEndsIdle(s, p);
      assert chunks[1..] == [];
      assert Feed(Idle, chunks) == Run(Idle, [p] + [], [Feedback] + [], Ok);
    } else {
      assert chunks[1..][0] == chunks[1] != [];
      assert Concat(chunks[1..]) != [];
      Accumulates(s, p[..j]);
      var next := RxState(true, p[..j], |p|);
      assert Receive(Idle, c) == Reaction(next, None, Ok);
      assert Concat(chunks[1..]) == p[j..];
      FeedRestOfPayload(p, j, chunks[1..]);
      assert Feed(Idle, chunks) == Feed(next, chunks[1..]);
    }
  }

  /** The header `[0x64, 0, 0, 0]` followed by 100 payload bytes in deliveries
      of 30, 40 and 30 bytes gives one 100-byte frame and one feedback. */
  lemma ThreeDeliveries(p: Payload)
    requires |p| == 100
    ensures Feed(Idle, [[0x64, 0, 0, 0] + p[..30], p[30..70], p[70..]])
         == Run(Idle, [p], [Feedback], Ok)
  {
    var chunks := [[0x64, 0, 0, 0] + p[..30], p[30..70], p[70..]];
    assert EncodeU32LE(100) == [0x64, 0, 0, 0];
    assert Concat(chunks[2..]) == p[70..] by { assert chunks[2..][1..] == []; }
    assert Concat(chunks[1..]) == p[30..70] + p[70..] by { assert chunks[1..][1..] == chunks[2..]; }
    assert p[30..70] + p[70..] == p[30..];
    assert p[..30] + p[30..] == p;
    assert Concat(chunks) == Framed(p);
    Fragmentation(p, chunks);
  }
}
