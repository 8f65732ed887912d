# Camera → SPI → UDP frame streaming, modelled in Dafny

The system streams JPEG frames from a K210 camera board to a PC through an
ESP32-C3 bridge. This project models its three sequential cores. All three
share one 10-byte little-endian chunk header: `frame_id` u32, `chunk_id` u16,
`flags` u8, `rsv` u8, `payload_len` u16.

- **Chunker** (`k210/main.py`): cuts each JPEG into payloads of at most
  1400 bytes. It sets START on the first chunk and END on the last, and
  packs each header with `"<IHBBH"`. Each chunk goes out as two chip-select
  bursts, header then payload, and each burst waits for the RDY line first.
  A wait that times out abandons the rest of the frame. `frame_id` counts
  frames; `chunk_id` counts chunks within a frame.
- **Bridge** (`esp32c3/main/app_main.c`, `spi_udp_forward_loop`): forever
  raises RDY and receives the 10-byte header into a zeroed buffer. It reads
  the payload length from header bytes 8-9 and clamps it to 2048. It raises
  RDY again and receives that many bytes into a zeroed buffer. It then sends
  header followed by payload as one UDP datagram. A failed receive aborts the
  program.
- **Reassembler** (`pc/server.py`): keeps one growing buffer per frame
  number. It drops datagrams shorter than a header. START resets the frame's
  buffer, and a chunk for a frame without a buffer is dropped. Every other
  chunk appends its payload. END removes the buffer and emits the finished
  frame.

Modules:

- `Wire` holds the header and its `Pack`/`Unpack` round trips.
- `Bridge` is a class over the loop's byte arrays, proved against the pure
  run function `Loop`. `hdr` and `payload` are declared once before the
  loop (app_main.c:247-248). `out` is a block-local array declared afresh
  inside the loop body (app_main.c:277). Here it is one array allocated
  with the others and reused on every turn. Nothing observable changes:
  each turn writes the `10 + payload_len` bytes of `out` that it sends
  before sending them.
- `Chunker` is a class `Camera` whose state is the frame counter and the log
  of bursts written. It is proved against `FrameSent` and `StreamSent`.
- `Reassembler` is a class `Server` whose state is the dictionary `cur`. It
  is proved against `Accept` and `Serve`.
- `EndToEnd` composes the three: the bursts of one frame, forwarded by the
  bridge and fed to the server in order, give back exactly the original JPEG.

Modelling choices:

- **SPI bus.** The master's side is a sequence of transfers. One
  `spi_slave_transmit` takes one transfer:
  - a `Burst` is what the master clocks in while chip select is low;
  - a `Fault` is a driver error, which `ESP_ERROR_CHECK` turns into an abort.

  A receive of `n` bytes keeps the first `min(n, |burst|)` bytes. The rest of
  the buffer stays as `memset` left it, which is zero. With no transfer left,
  the receive blocks forever. This holds for `n = 0` too, when a header
  declares `payload_len` 0. The receive still waits for and consumes one
  transfer, keeps none of its bytes, and blocks if there is none. The
  datagram is then the bare 10-byte header. The camera never declares 0:
  every payload it sends holds at least one byte.
- **Outputs.** `set_rdy(1)`, the receive request and `sendto` are events
  appended to a trace. Datagrams are the `Send` events of that trace. The
  loop only ever drives RDY high (app_main.c:253 and 267), so a `RdyHigh`
  event is a write of the high level, not a pulse.
- **RDY waits.** The outcome of each `wait_rdy` on the camera is an oracle
  `ready(frame, w)`. Wait `2c` comes before header `c`, and wait `2c + 1`
  before payload `c`.
- **Wrap-around.** `ustruct.pack` keeps the low-order bytes of an integer too
  wide for its field, so the packed `frame_id` is `frame_id mod 2^32` and
  `chunk_id` is `chunk_id mod 2^16`.
- **Payload length on the bridge.** `hdr[8] | hdr[9] << 8` is written as
  `hdr[8] + 256 * hdr[9]`. The two bytes do not overlap, so the two are
  equal.

## Model

| member | source | states |
|---|---|---|
| Wire.FlagBits | pc/server.py:24-33 | the flag tests used throughout equal the server's `flags & FLAG_START` and `flags & FLAG_END` |
| Wire.OrFlags | k210/main.py:139-143 | or-ing START and END into a cleared flags byte gives 1, 2 or 3 |
| Wire.LittleEndianRoundTrip | k210/main.py:35 | the little-endian encoding of a value that fits in `n` bytes decodes back to it |
| Wire.ToLittleEndianRoundTrip | pc/server.py:19-21 | re-encoding the little-endian value of a byte string gives the bytes back |
| Wire.FieldsLittleEndian | pc/server.py:19-21 | the fixed-offset u32 and u16 fields are the little-endian values of header bytes 0-3, 4-5 and 8-9 |
| Wire.UnpackPack | k210/main.py:145 | `unpack_from("<I H B B H")` of `pack("<IHBBH", ...)` returns every field unchanged |
| Wire.Pack | k210/main.py:145 | `ustruct.pack("<IHBBH", ...)` of fields that fit their widths; its result is 10 bytes; Wire.UnpackPack and Wire.PackUnpack prove it inverse to Wire.Unpack |
| Wire.Unpack | pc/server.py:19-21 | `struct.unpack_from("<I H B B H", data, 0)`: every decoded field fits its width; Wire.FieldsLittleEndian, Wire.UnpackAppend and the two round trips state what it reads |
| Wire.PackUnpack | pc/server.py:19-21 | packing the decoded fields reproduces the first ten bytes exactly |
| Wire.UnpackAppend | pc/server.py:19-21 | decoding reads only the first ten bytes of a datagram |
| Bridge.Received | esp32c3/main/app_main.c:256-260 | the first `n` bytes of a buffer zeroed and then filled by one receive: exactly `n` bytes long; Bridge.ReceivedAt gives each byte |
| Bridge.DeclaredLen | esp32c3/main/app_main.c:262-263 | the or of `hdr[8]` and `hdr[9]` shifted left by 8, written as `hdr[8] + 256*hdr[9]`: always below 2^16; Bridge.DeclaredLenUnpack ties it to the header's `payload_len` |
| Bridge.DeclaredLenUnpack | esp32c3/main/app_main.c:262-263 | the bridge's length, `hdr[8] + 256*hdr[9]`, is the header's little-endian `payload_len` field |
| Bridge.Clamp | esp32c3/main/app_main.c:264-265 | the effective length is at most 2048 and at most the declared one; it is either the declared length or exactly 2048 |
| Bridge.ReceivedAt | esp32c3/main/app_main.c:256-260 | after `memset` and a receive of `n` bytes, byte `i` is the master's byte `i` if it sent one, else 0 |
| Bridge.Forwarded | esp32c3/main/app_main.c:277-282 | the datagram one turn sends from its two transfers; Bridge.ForwardedLayout, Bridge.ForwardedWellFormed and Bridge.ForwardedClamped state its length and every byte |
| Bridge.ForwardedLayout | esp32c3/main/app_main.c:277-282 | the datagram is 10 plus the clamped length long, so 10 to 2058 bytes; its first 10 bytes are the header burst byte for byte; the rest is the start of the payload burst, zero-filled |
| Bridge.ForwardedWellFormed | esp32c3/main/app_main.c:262-282 | a header whose declared length matches the payload sent and fits the buffer crosses the bridge unchanged, header followed by payload |
| Bridge.ForwardedClamped | esp32c3/main/app_main.c:264-282 | a declared length above 2048 yields exactly 2048 payload bytes and a 2058-byte datagram |
| Bridge.Iteration | esp32c3/main/app_main.c:251-283 | one turn of the loop body on the transfers still to come; Bridge.IterationForwards and Bridge.IterationStops state its events and status in every case |
| Bridge.PayloadStep | esp32c3/main/app_main.c:262-283 | the payload phase and the send after a received header; its cases are stated by Bridge.IterationForwards and Bridge.IterationStops |
| Bridge.Loop | esp32c3/main/app_main.c:249-283 | at most `k` turns of `while (1)`, stopping at the first abort or block; Bridge.LoopSequential states a clean run, and Bridge.ForwardLoop.RunFor ties the arrays to it |
| Bridge.IterationForwards | esp32c3/main/app_main.c:251-283 | an iteration that gets both transfers writes RDY high twice, requests 10 bytes and then the clamped length, and sends exactly one datagram built from those two transfers |
| Bridge.IterationStops | esp32c3/main/app_main.c:253-274 | the iteration aborts exactly when either receive fails and blocks exactly when a transfer is missing; then it sends nothing and has written RDY high once or twice; otherwise it sends one datagram and writes RDY high twice |
| Bridge.LoopSequential | esp32c3/main/app_main.c:249-283 | on a bus of `2k` bursts, `k` turns stay running, consume exactly those bursts, write RDY high `2k` times, and send datagram `i` built from bursts `2i` and `2i+1`, in order |
| Bridge.ForwardPairsAt | esp32c3/main/app_main.c:249-283 | datagram `i` of such a run comes from header burst `2i` and payload burst `2i+1` |
| Bridge.ForwardLoop.constructor | esp32c3/main/app_main.c:247-277 | the buffers `hdr` and `payload` of 10 and 2048 bytes (lines 247-248), and `out` of 2058 bytes (line 277, allocated here once); nothing done yet |
| Bridge.ForwardLoop.SetRdy | esp32c3/main/app_main.c:65 | `set_rdy(1)` appends one write of RDY's high level and changes nothing else |
| Bridge.ForwardLoop.Zero | esp32c3/main/app_main.c:257-258 | `memset` leaves every byte of the buffer 0 |
| Bridge.ForwardLoop.Copy | esp32c3/main/app_main.c:278-279 | `memcpy` writes `src[..n]` at offset `at` and nothing outside it |
| Bridge.ForwardLoop.Transmit | esp32c3/main/app_main.c:259-260 | the receive takes the next transfer; on a burst it fills the buffer up to the requested length and leaves the rest as it was; on a fault it aborts; with no transfer it blocks |
| Bridge.ForwardLoop.ReceivePhase | esp32c3/main/app_main.c:253-260 | RDY, `memset`, receive: the buffer's first `n` bytes are `Received(burst, n)` |
| Bridge.ForwardLoop.ForwardPayload | esp32c3/main/app_main.c:262-282 | the payload phase and the send follow the pure `PayloadStep` of the received header |
| Bridge.ForwardLoop.SendTo | esp32c3/main/app_main.c:281-282 | `sendto` of the first `len` bytes of `out` appends exactly that datagram to the trace; bus and status are unchanged |
| Bridge.ForwardLoop.Emit | esp32c3/main/app_main.c:277-282 | the datagram sent is `hdr` followed by the first `len` payload bytes |
| Bridge.ForwardLoop.Iterate | esp32c3/main/app_main.c:251-283 | one pass of the body, whatever the buffers held before, follows `Iteration` of the transfers it consumes |
| Bridge.ForwardLoop.Step | esp32c3/main/app_main.c:249-283 | one more pass extends a run of `i` turns to `i + 1` turns |
| Bridge.ForwardLoop.RunFor | esp32c3/main/app_main.c:249-283 | at most `k` turns of `while (1)` leave trace, bus and status as the pure `Loop` says, stopping at the first abort or block |
| Chunker.NumChunksBound | k210/main.py:134 | chunk `c` exists exactly when its offset `c*1400` is below the JPEG's length |
| Chunker.ChunkPayload | k210/main.py:135 | the slice at offset `c*1400`, cut at the JPEG's end; Chunker.ChunkSizes, Chunker.PayloadsPrefix and Chunker.PayloadsCover state its length and contents |
| Chunker.ChunkSizes | k210/main.py:134-137 | every payload is 1 to 1400 bytes; every chunk but the last is exactly 1400; the last holds what remains |
| Chunker.PayloadsUpToAt | k210/main.py:135 | entry `i` of the payload list is the slice at offset `i*1400` |
| Chunker.PayloadsPrefix | k210/main.py:132-137 | the first `c` payloads joined are the JPEG up to `min(c*1400, total)` |
| Chunker.PayloadsCover | k210/main.py:132-137 | all payloads of a frame joined are exactly the JPEG |
| Chunker.ChunkFlags | k210/main.py:139-143 | the flags of chunk `c`; Chunker.ChunkFlagsMark states which bits are set on which chunk, and Chunker.Camera.CutChunk shows the or-ing computes it |
| Chunker.ChunkFlagsMark | k210/main.py:139-143 | START is set exactly on chunk 0 and END exactly on the last chunk; no other bit is ever set; a JPEG of at most 1400 bytes is one chunk with flags 3 |
| Chunker.ChunkHeader | k210/main.py:145 | the packed header of chunk `c`; Chunker.ChunkHeaderFields states its length and decoded fields |
| Chunker.ChunkHeaderFields | k210/main.py:145 | the header is 10 bytes and decodes to the frame number mod 2^32, the chunk number mod 2^16, the flags, `rsv = 0` and the payload's true length |
| Chunker.WritesUpToAt | k210/main.py:155-169 | burst `2i` is header `i` and burst `2i+1` is payload `i`, so chunk numbers run 0, 1, 2, ... with no gap |
| Chunker.FrameWritesAt | k210/main.py:155-169 | the same for all bursts of a frame |
| Chunker.FirstTimeoutIs | k210/main.py:148-165 | the wait that ends a frame is the first that fails: every earlier wait succeeded |
| Chunker.FrameSent | k210/main.py:134-171 | the bursts one pass of the frame loop writes; Chunker.FrameSentWhole and Chunker.FrameSentTimeout state them, and Chunker.Camera.SendFrame ties the loop to them |
| Chunker.StreamSent | k210/main.py:124-175 | the bursts of a run over several frames, each frame's after the previous one's; Chunker.Camera.Stream ties the outer loop to it |
| Chunker.FrameSentWhole | k210/main.py:134-171 | with every wait successful, all bursts of the frame go out |
| Chunker.FrameSentTimeout | k210/main.py:148-165 | after a failed wait `w`, what went out is a prefix of the frame's bursts shorter than `w + 1`, so the END chunk's payload never goes out |
| Chunker.Camera.constructor | k210/main.py:122 | `frame_id = 0`, nothing written |
| Chunker.Camera.Write | k210/main.py:155-157 | one chip-select burst appends the next burst of the frame to the written log |
| Chunker.Camera.CutChunk | k210/main.py:135-145 | slice, advance `off`, or the flags, pack: gives payload `c`, header `c` and the next offset, which is inside the JPEG exactly when another chunk follows |
| Chunker.Camera.SendFrame | k210/main.py:129-174 | one pass of the frame loop writes exactly the bursts before the first failed wait, returns the number of whole chunks sent, and adds 1 to `frame_id` whether or not the frame finished |
| Chunker.Camera.NextFrame | k210/main.py:124-175 | frame `j` extends the log of the first `j` frames |
| Chunker.Camera.Stream | k210/main.py:124-175 | over a list of JPEGs, the log grows by the bursts of each frame in order, and `frame_id` grows by one per frame |
| Reassembler.PayloadOf | pc/server.py:22 | the payload is `data[10 : 10 + payload_len]`, cut short where the datagram ends |
| Reassembler.Accept | pc/server.py:16-34 | one turn of the server loop on `cur`; the Reassembler.Accept* rows state every case, and Reassembler.Server.Handle ties the in-place loop body to it |
| Reassembler.Serve | pc/server.py:14-34 | the server loop over the first `k` datagrams; the Reassembler.Serve* rows state a whole frame, and Reassembler.Server.ServeAll ties the loop to it |
| Reassembler.AcceptShort | pc/server.py:16-17 | a datagram shorter than 10 bytes changes nothing and finishes nothing |
| Reassembler.AcceptUnknown | pc/server.py:27-29 | a non-START chunk for a frame without a buffer is dropped and the dictionary is unchanged |
| Reassembler.AcceptGrow | pc/server.py:24-31 | an accepted non-END chunk leaves its frame's buffer as the old buffer (empty on START) plus its payload; no other entry changes |
| Reassembler.AcceptFinish | pc/server.py:24-34 | an accepted END chunk emits the old buffer (empty on START) plus its own payload and removes the entry; no other entry changes |
| Reassembler.AcceptLocal | pc/server.py:24-34 | only the datagram's own frame entry can change, and only an END chunk emits a frame |
| Reassembler.AcceptChunk | pc/server.py:22-34 | a well-formed chunk extends or finishes its frame by exactly its payload |
| Reassembler.ServeOpen | pc/server.py:24-31 | the first chunk of a multi-chunk frame opens its buffer with its payload |
| Reassembler.ServeSingle | pc/server.py:24-34 | a one-chunk frame is emitted at once |
| Reassembler.ServeGrow | pc/server.py:27-31 | a middle chunk extends the buffer by its payload |
| Reassembler.ServeLast | pc/server.py:31-34 | the last chunk emits the buffer plus its payload and removes the entry |
| Reassembler.ServePrefix | pc/server.py:14-31 | before the last chunk, the buffer holds the first `k` payloads in order and no frame has been emitted |
| Reassembler.ServeFrame | pc/server.py:14-34 | a whole frame's datagrams, in order, emit exactly one frame, all payloads joined, and remove its entry; all other entries are unchanged |
| Reassembler.Server.constructor | pc/server.py:12 | `cur = {}` |
| Reassembler.Server.Handle | pc/server.py:16-34 | one turn of the loop on the dictionary in place agrees with the pure `Accept` |
| Reassembler.Server.ServeAll | pc/server.py:14-34 | the loop over a run of datagrams emits the frames and leaves the dictionary that `Serve` says |
| EndToEnd.ChunkForwarded | k210/main.py:29 | a chunk's declared length is its payload's length, at most 1400 and so below 2048: the bridge never clamps it and forwards header plus payload unchanged |
| EndToEnd.FrameForwarded | esp32c3/main/app_main.c:249-283 | datagram `c` the bridge emits for a frame's bursts is chunk `c`'s header followed by its payload |
| EndToEnd.FrameChunks | k210/main.py:139-145 | those datagrams are, to the server, one whole frame: the right frame number, START only first, END only last, each payload as declared |
| EndToEnd.RoundTrip | pc/server.py:24-34 | with every RDY wait successful, the bridge forwards all the frame's bursts without failing or leaving any, and the server fed its datagrams in order emits exactly the original JPEG once; other partial frames are untouched |

## Left out

- Wi-Fi, BLE provisioning, NVS and `app_main` on the ESP32-C3 are event-driven platform code and are not modelled.
- UDP socket setup is not modelled. The real `sendto` is foreign network code, so the datagram is an event in the trace.
- SPI slave and GPIO driver configuration is hardware setup and is not modelled. The driver is the transfer sequence described above.
- `esp32c3/main/credential.h` holds only declarations and is not part of this model.
- The camera, JPEG compression and `_to_bytes_maybe` are library calls. The JPEG is an arbitrary byte sequence.
- EndToEnd.RoundTrip: assumes that every datagram the bridge hands to `sendto` reaches the server exactly once and in order. UDP loss, duplication and reordering are not modelled. A failed `sendto` is not modelled either: the source ignores its return value (app_main.c:281-282), so such a datagram is silently lost, and the round trip does not cover that case.
- EndToEnd.RoundTrip: requires a non-empty JPEG. `jpeg_bytes_from_image` only returns JPEGs longer than 200 bytes (k210/main.py:75-80). An empty one would send no chunk.
- `wait_rdy` polling, its 2000 ms timeout and the 30 ms sleep between frames are wall-clock behaviour. Each wait is a boolean oracle.
- The `print` diagnostics on both boards are not modelled.
- The server's `recvfrom(4096)` is I/O, and so is writing `latest.jpg`. Datagrams are inputs and a finished frame is an output value. The bridge never sends more than 2058 bytes, so the 4096-byte limit never truncates one.
- The `while True` / `while (1)` loops are infinite in the source. Here they are bounded:
  - at most `k` turns of the bridge;
  - a finite list of frames for the camera;
  - a finite list of datagrams for the server.
- Concurrency between the boards is not modelled. The RDY handshake's timing is not modelled either: a burst that the master sends while the bridge is not receiving is not represented. The bridge sees exactly the bursts the camera wrote, in order.
- A master transfer is never split or merged across receives: one chip-select burst is one SPI slave transaction.
