/** The Frame Flow receiver: the per-connection state machine of
    `FrameFlowReceiverProtocol` that turns TCP chunks into frame payloads.
    On the wire a frame is a 4-byte little-endian length followed by that many
    payload bytes; after each frame the receiver writes a 4-byte feedback word
    back to the camera.

    `Receive` is the specification of one `data_received` call as a function of
    the three protocol fields and the chunk; `FrameFlowReceiver` is the protocol
    object itself, whose `DataReceived` updates those fields in place and is
    proved to follow `Receive`. */
module FrameFlow {
  import opened Wire

  type Payload = seq<Byte>

  datatype Option<T> = None | Some(value: T)

  /** How a `data_received` call ends: normally, or by the `struct.error` that
      `struct.unpack("<L", ...)` raises on a header shorter than four bytes. */
  datatype Outcome = Ok | HeaderError

  /** The value written back to the camera after every frame. */
  const FeedbackValue: nat := 1024

  /** The 4 bytes of one feedback write. The source packs the value in native
      byte order; this model fixes little-endian, the order of the header. */
  const Feedback: seq<Byte> := EncodeU32LE(FeedbackValue)

  /** The fields `receiving_data`, `data_buffer` and `buffer_length`. The
      `BytesIO` buffer is its contents: every write to it lands at its end. */
  datatype RxState = RxState(receivingData: bool, dataBuffer: seq<Byte>, bufferLength: nat)
  {
    /** A length fits in the 32-bit header, and an idle receiver holds nothing. */
    ghost predicate Valid() {
      bufferLength < U32Limit &&
      (!receivingData ==> dataBuffer == [] && bufferLength == 0)
    }
  }

  /** The state set by `__init__` and by `_clear_buffer`. */
  const Idle: RxState := RxState(false, [], 0)

  /** What one `data_received` call does: the new fields, the frame handed to
      the frame callback (at most one), and how the call ended. */
  datatype Reaction = Reaction(next: RxState, frame: Option<Payload>, outcome: Outcome)

  /** What a sequence of calls does: the final fields, the frames and the
      transport writes in order, and how the last call ended. */
  datatype Run = Run(last: RxState, frames: seq<Payload>, writes: seq<seq<Byte>>, outcome: Outcome)

  /** Python's `s[:n]`, and `BytesIO.read(n)` from the start of `s`: at most
      the first n elements. */
  function Take(s: seq<Byte>, n: nat): (r: seq<Byte>)
    ensures |r| <= n && r <= s
    ensures |r| < n ==> r == s
  {
    if n <= |s| then s[..n] else s
  }

  /** Python's `s[n:]`: all but the first n elements, empty when there are
      fewer. */
  function Drop(s: seq<Byte>, n: nat): (r: seq<Byte>)
    ensures Take(s, n) + r == s
  {
    if n <= |s| then s[n..] else []
  }

  /** The frame length in force during a call: the stored one while
      receiving, else the one the chunk's header gives (0 if it has none). */
  function LengthFor(s: RxState, data: seq<Byte>): (n: nat)
    ensures n < U32Limit || s.receivingData
  {
    if s.receivingData then s.bufferLength
    else match UnpackU32LE(Take(data, U32Size))
      case Value(n) => n
      case StructError => 0
  }

  /** The bytes the buffer holds once the chunk's payload is written to it:
      the whole chunk while receiving, the chunk past its header when idle. */
  function Buffered(s: RxState, data: seq<Byte>): (b: seq<Byte>)
    ensures s.dataBuffer <= b
    ensures |b| <= |s.dataBuffer| + |data|
  {
    s.dataBuffer + (if s.receivingData then data else Drop(data, U32Size))
  }

  /** The frame list of one reaction: empty or a single payload. */
  function Emitted(r: Reaction): (fs: seq<Payload>)
    ensures |fs| <= 1
    ensures |fs| == 1 <==> r.frame.Some?
  {
    if r.frame.Some? then [r.frame.value] else []
  }

  /** One `data_received(data)` call on a receiver whose fields are `s`.
      When idle, the first 4 bytes of the chunk are the little-endian frame
      length and the rest starts the payload; there is no header
      accumulation, so a shorter chunk raises. While receiving, the whole
      chunk is payload. Once the buffer holds at least `bufferLength` bytes,
      its first `bufferLength` bytes are the frame; leftover bytes are parsed
      at once as the next header (raising if fewer than 4) and the rest
      becomes the new buffer. There is no loop: one frame per call at most. */
  function Receive(s: RxState, data: seq<Byte>): (r: Reaction)
    requires s.Valid()
    ensures r.next.Valid()
    ensures r.outcome == HeaderError ==> r.frame == None && r.next.receivingData
    ensures r.frame.Some? ==>
              r.frame.value <= Buffered(s, data) && |r.frame.value| == LengthFor(s, data)
    ensures r.outcome == Ok && r.frame == None ==>
              r.next == RxState(true, Buffered(s, data), LengthFor(s, data))
  {
    if !s.receivingData && UnpackU32LE(Take(data, U32Size)).StructError? then
      // the flag is set before the header is unpacked
      Reaction(s.(receivingData := true), None, HeaderError)
    else
      var length := LengthFor(s, data);
      var buffer := Buffered(s, data);
      if |buffer| < length then
        Reaction(RxState(true, buffer, length), None, Ok)
      else
        var frame := buffer[..length];
        if |buffer| - length == 0 then
          Reaction(Idle, Some(frame), Ok)
        else
          var rest := buffer[length..];
          match UnpackU32LE(Take(rest, U32Size))
          case StructError =>
            // the frame is decoded but neither handed over nor acknowledged
            Reaction(RxState(true, buffer, length), None, HeaderError)
          case Value(n) =>
            Reaction(RxState(true, rest[U32Size..], n), Some(frame), Ok)
  }

  /** The calls `data_received(chunks[0])`, `data_received(chunks[1])`, ...
      in order, starting from `s`. An exception escaping `data_received` makes
      the transport close the connection, so no chunk after it is delivered.
      Every frame is followed by one feedback write. */
  function Feed(s: RxState, chunks: seq<seq<Byte>>): (r: Run)
    requires s.Valid()
    ensures r.last.Valid()
    ensures |r.frames| <= |chunks|
    ensures |r.writes| == |r.frames|
    ensures forall w <- r.writes :: w == Feedback
    decreases |chunks|
  {
    if chunks == [] then
      Run(s, [], [], Ok)
    else
      var step := Receive(s, chunks[0]);
      if step.outcome == HeaderError then
        Run(step.next, [], [], HeaderError)
      else
        var more := Feed(step.next, chunks[1..]);
        var acks := if step.frame.Some? then [Feedback] else [];
        Run(more.last, Emitted(step) + more.frames, acks + more.writes, more.outcome)
  }

  /** `FrameFlowReceiverProtocol`: one instance per camera connection. The
      frame callback and the transport are modelled by the sequences of frames
      handed to the callback and of byte strings written back. */
  class FrameFlowReceiver {
    var receivingData: bool
    var dataBuffer: seq<Byte>
    var bufferLength: nat
    /** Payloads passed to `frame_received_callback`, oldest first. */
    var frames: seq<Payload>
    /** Byte strings passed to `transport.write`, oldest first. */
    var writes: seq<seq<Byte>>

    ghost function State(): RxState
      reads this
    {
      RxState(receivingData, dataBuffer, bufferLength)
    }

    /** The fields are consistent, and every frame handed over so far was
        followed by exactly one feedback write. */
    ghost predicate Valid()
      reads this
    {
      State().Valid() &&
      |writes| == |frames| &&
      forall w <- writes :: w == Feedback
    }

    /** `__init__`: not receiving, an empty buffer and length 0. */
    constructor ()
      ensures Valid()
      ensures State() == Idle
      ensures frames == [] && writes == []
    {
      receivingData := false;
      dataBuffer := [];
      bufferLength := 0;
      frames := [];
      writes := [];
    }

    /** `_clear_buffer`: back to the state of a new receiver. */
    method ClearBuffer()
      modifies this
      ensures State() == Idle
      ensures frames == old(frames) && writes == old(writes)
    {
      dataBuffer := [];
      receivingData := false;
      bufferLength := 0;
    }

    /** `data_received(data)`. The fields end as `Receive` says, the frame it
        yields (if any) is handed to the callback, and exactly then one
        feedback word is written. */
    method DataReceived(data: seq<Byte>) returns (outcome: Outcome)
      requires Valid()
      modifies this
      ensures Valid()
      ensures State() == Receive(old(State()), data).next
      ensures outcome == Receive(old(State()), data).outcome
      ensures frames == old(frames) + Emitted(Receive(old(State()), data))
      ensures writes == old(writes) + (if |frames| > |old(frames)| then [Feedback] else [])
    {
      ghost var r := Receive(State(), data);
      var payload: seq<Byte>;
      if receivingData {
        payload := data;
      } else {
        receivingData := true;
        var header := Take(data, U32Size);
        var unpacked := UnpackU32LE(header);
        if unpacked.StructError? {
          return HeaderError;
        }
        bufferLength := unpacked.n;
        payload := Drop(data, U32Size);
      }
      dataBuffer := dataBuffer + payload;

      if |dataBuffer| >= bufferLength {
        var payloadBytes := dataBuffer[..bufferLength];
        if |dataBuffer| - bufferLength == 0 {
          ClearBuffer();
        } else {
          var rest := dataBuffer[bufferLength..];
          var unpacked := UnpackU32LE(Take(rest, U32Size));
          if unpacked.StructError? {
            return HeaderError;
          }
          bufferLength := unpacked.n;
          dataBuffer := rest[U32Size..];
        }
        frames := frames + [payloadBytes];
        writes := writes + [Feedback];
      }
      outcome := Ok;
    }
  }
}
