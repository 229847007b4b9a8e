# Frame Flow receiver, modelled and verified in Dafny

This project models the receiving side of Frame Flow, the push-based TCP
protocol by which an ESP32-Cam streams video frames to the
computer_vision_demos server. On the wire every frame is a 4-byte unsigned
little-endian length followed by that many payload bytes. The server's
`FrameFlowReceiverProtocol` is one object per camera connection. Its method
`data_received` is called with arbitrarily sized chunks of the TCP stream. It
reassembles frame payloads in three fields (`receiving_data`, `data_buffer`,
`buffer_length`), hands each frame to a callback, and after each frame writes
a 4-byte feedback word (the value 1024) back to the camera.

Files:

- `wire.dfy`, module `Wire`: the `<L` codec of Python's `struct` module.
  Decoding and encoding of little-endian unsigned integers, with round-trip
  lemmas both ways. `struct.unpack` on a header that is not 4 bytes long
  gives `StructError`.
- `frameflow.dfy`, module `FrameFlow`:
  - `Receive` is one `data_received` call as a pure function of the three
    fields and the chunk.
  - `Feed` is a sequence of calls. It stops at the first exception, because
    the asyncio transport closes the connection when `data_received` raises.
  - `FrameFlowReceiver` is the protocol object as a class. It has the three
    fields, plus the sequence of frames handed to the callback and the
    sequence of byte strings written to the transport. Its `DataReceived`
    changes those fields in place, step by step as the source does. It is
    proved to end in the state `Receive` gives.
- `frameflow_properties.dfy`, module `FrameFlowProperties`: what the receiver
  promises, as lemmas over `Receive` and `Feed`.

The model follows the code as written, including where it is not an idealised
decoder:

- The header is not accumulated across chunks. A chunk shorter than 4 bytes
  that arrives while idle makes `struct.unpack` raise. The receiving flag has
  already been set by then.
- There is no loop. A call hands over at most one frame, so a second complete
  frame in the same chunk stays in the buffer until the next call.
- Bytes left over after a frame are parsed at once as the next header. If
  fewer than 4 remain, this raises. In that case the frame has been cut out
  but is neither handed over nor acknowledged.

Compared with an idealised length-prefixed decoder, the code differs in
three ways, and the model keeps the code's behaviour:

- An idealised decoder would collect header bytes until 4 are available.
  This code does not, so a header split over two chunks ends the connection
  (`SplitHeaderFails`).
- An idealised decoder would hand over every complete frame a chunk holds.
  This code hands over one per call (`SecondFrameWaits`).
- In an idealised decoder, the buffer left after a call would never hold a
  complete frame or more than the expected length. In this code it holds a
  complete frame when a second frame waits (`SecondFrameWaits`). It holds
  more than the expected length after a failed leftover header (`Leftover`).

The `BytesIO` buffer is modelled as a sequence that only grows at its end.
Every write lands at the end, because the buffer is either new or has just
been rebuilt and written. `seek(0)` followed by `read` is slicing. When the
leftover header is too short, line 65 raises before line 67 replaces
`data_buffer`, so the model keeps the whole buffer in that case.

## Model

| member | source | states |
|---|---|---|
| `Wire.UnpackU32LE` | computer_vision_demos/esp32_cam/esp32_camera_frameflow.py:49-50 | `struct.unpack("<L", h)` succeeds exactly when h has 4 bytes, and then gives a value below 2^32 whose encoding is h |
| `Wire.DecodeU32LE` | computer_vision_demos/esp32_cam/esp32_camera_frameflow.py:50 | the little-endian value of 4 bytes is below 2^32 |
| `Wire.EncodeU32LE` | computer_vision_demos/esp32_cam/esp32_camera_frameflow.py:74 | packing a 32-bit value gives exactly 4 bytes |
| `Wire.DecodeEncodeU32` | computer_vision_demos/esp32_cam/esp32_camera_frameflow.py:49-50 | decoding the little-endian encoding of any n < 2^32 returns n, and unpacking it gives n |
| `Wire.EncodeDecodeLE` | computer_vision_demos/esp32_cam/esp32_camera_frameflow.py:49-50 | re-encoding the value of any byte string in as many bytes gives the same bytes |
| `Wire.DecodeU32Injective` | computer_vision_demos/esp32_cam/esp32_camera_frameflow.py:49-50 | two 4-byte headers with the same length value are the same bytes |
| `FrameFlow.Take` | computer_vision_demos/esp32_cam/esp32_camera_frameflow.py:47 | `data[:4]` and `read(4)` give at most 4 bytes from the front, and all of them when there are fewer |
| `FrameFlow.Drop` | computer_vision_demos/esp32_cam/esp32_camera_frameflow.py:51 | `data[4:]` is exactly what follows `data[:4]` |
| `FrameFlow.Receive` | computer_vision_demos/esp32_cam/esp32_camera_frameflow.py:42-74 | one call keeps the state invariant (length below 2^32, idle means empty buffer and length 0); after an exception no frame is handed over and the receiver is left receiving; a frame is a prefix of the buffered bytes of the length in force; a call that ends normally without a frame leaves the buffered bytes and that length in place |
| `FrameFlow.Feed` | computer_vision_demos/esp32_cam/esp32_camera_frameflow.py:42-74 | a run of calls keeps the invariant, hands over at most one frame per chunk, and makes exactly one feedback write per frame, each of them the feedback word |
| `FrameFlow.FrameFlowReceiver.constructor` | computer_vision_demos/esp32_cam/esp32_camera_frameflow.py:23-31 | a new receiver is idle: not receiving, empty buffer, length 0, nothing handed over or written |
| `FrameFlow.FrameFlowReceiver.ClearBuffer` | computer_vision_demos/esp32_cam/esp32_camera_frameflow.py:33-36 | `_clear_buffer` returns the fields to the idle state and touches nothing else |
| `FrameFlow.FrameFlowReceiver.DataReceived` | computer_vision_demos/esp32_cam/esp32_camera_frameflow.py:42-74 | the in-place update ends with the fields `Receive` gives; the frame it yields is appended to the handed-over frames; exactly then the feedback word is appended to the writes; the invariant is kept |
| `FrameFlowProperties.FeedbackWord` | computer_vision_demos/esp32_cam/esp32_camera_frameflow.py:72-74 | each feedback write is 4 bytes that unpack to 1024 |
| `FrameFlowProperties.IdleReadsHeader` | computer_vision_demos/esp32_cam/esp32_camera_frameflow.py:45-51 | when idle, the first 4 bytes of a chunk set the length and the rest is handled as payload |
| `FrameFlowProperties.ShortChunkWhenIdle` | computer_vision_demos/esp32_cam/esp32_camera_frameflow.py:43-50 | when idle, a chunk under 4 bytes raises; only the receiving flag has changed |
| `FrameFlowProperties.SplitHeaderFails` | computer_vision_demos/esp32_cam/esp32_camera_frameflow.py:43-50 | header bytes are not carried over: a header split over two chunks ends the connection with no frame |
| `FrameFlowProperties.Accumulates` | computer_vision_demos/esp32_cam/esp32_camera_frameflow.py:43-55 | below the length, a call only appends the chunk: no frame, no feedback, length and flag unchanged |
| `FrameFlowProperties.FrameWhenComplete` | computer_vision_demos/esp32_cam/esp32_camera_frameflow.py:55-68 | while receiving, a frame comes out if and only if the buffered bytes reach the length and the leftover is empty or holds a whole header; the frame is the first `buffer_length` buffered bytes |
| `FrameFlowProperties.ExactFrameEndsIdle` | computer_vision_demos/esp32_cam/esp32_camera_frameflow.py:55-62 | a frame that uses the buffer up exactly is handed over and the receiver returns to idle |
| `FrameFlowProperties.Leftover` | computer_vision_demos/esp32_cam/esp32_camera_frameflow.py:61-68 | leftover bytes: the next 4 become the new length, the rest becomes the new buffer, the receiver stays receiving; fewer than 4 raise with no frame |
| `FrameFlowProperties.SecondFrameWaits` | computer_vision_demos/esp32_cam/esp32_camera_frameflow.py:55-74 | two whole frames in one chunk give only the first; the second stays buffered although complete |
| `FrameFlowProperties.BufferedFrameOnNextCall` | computer_vision_demos/esp32_cam/esp32_camera_frameflow.py:55-68 | a complete buffered frame comes out on the next call unless that chunk is 1 to 3 bytes long |
| `FrameFlowProperties.FeedRestOfPayload` | computer_vision_demos/esp32_cam/esp32_camera_frameflow.py:43-62 | from part of a payload, chunks making up the rest give that one frame, one feedback, and an idle receiver |
| `FrameFlowProperties.Fragmentation` | computer_vision_demos/esp32_cam/esp32_camera_frameflow.py:42-74 | header plus payload split into non-empty chunks, the first holding the whole header, gives exactly that payload as the one frame, one feedback, and an idle receiver |
| `FrameFlowProperties.ThreeDeliveries` | computer_vision_demos/esp32_cam/esp32_camera_frameflow.py:42-74 | header `[0x64,0,0,0]` and 100 bytes in 30/40/30-byte chunks give one 100-byte frame and one feedback |

## Left out

- `cv2.imdecode` (an OpenCV call): the frame handed to the callback is the raw payload. A failed decode that yields `None` is not modelled.
- Zero-length frames: for a header of length 0 the model hands over an empty frame and writes feedback. In the source, `cv2.imdecode` is then given an empty buffer, which OpenCV rejects by raising, so the call would end with no callback and no feedback. The model does not capture this, because the decoder is outside it.
- `asyncio.create_task` and `transport.write`: modelled only as appends to the `frames` and `writes` sequences. Scheduling of the callback is not modelled.
- `connection_made` and `connection_lost`: they only store the transport and log.
- Closing the connection after an exception: asyncio does this outside the protocol. `Feed` models it only by delivering no further chunk.
- Byte order of the feedback word: the source packs 1024 in the host's native order (`@I`). The model fixes little-endian, the header's order, so `Feedback` is `[0, 4, 0, 0]`. On a big-endian host the source would send `[0, 0, 4, 0]`.
- `ESP32CameraFrameFlowStream`: TCP server setup on the asyncio event loop. Each connection gets a fresh receiver from its factory, which the constructor models.
- `FrameStream` and `FrameStreamOperator` (stream.py), the HTTP server, the HTTP camera clients, the detection and segmentation stages, camera configuration and the bootstrap code: these are I/O, concurrency and wrappers over external libraries.
- Logging.
