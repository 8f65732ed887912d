/** The K210 sender: it cuts each JPEG into chunks of at most 1400 payload
    bytes and writes every chunk to the bridge as two chip-select bursts, the
    10-byte header and then the payload, each after waiting for RDY. */
module Chunker {
  import opened Wire

  const CHUNK_PAYLOAD: nat := 1400

  /** The number of chunks the inner loop cuts a `total`-byte JPEG into. */
  function NumChunks(total: nat): nat
  {
    (total + CHUNK_PAYLOAD - 1) / CHUNK_PAYLOAD
  }

  /** Chunk `c` exists exactly when its offset is inside the JPEG. */
  lemma NumChunksBound(total: nat, c: nat)
    ensures c < NumChunks(total) <==> c * CHUNK_PAYLOAD < total
  {
    var q := NumChunks(total);
    var r := (total + CHUNK_PAYLOAD - 1) % CHUNK_PAYLOAD;
    assert total + CHUNK_PAYLOAD - 1 == CHUNK_PAYLOAD * q + r && 0 <= r < CHUNK_PAYLOAD;
    if c < q {
      assert CHUNK_PAYLOAD * (c + 1) <= CHUNK_PAYLOAD * q;
    } else {
      assert CHUNK_PAYLOAD * c >= CHUNK_PAYLOAD * q;
    }
  }

  /** `jpeg[off : off + CHUNK_PAYLOAD]` at `off = c * CHUNK_PAYLOAD`; the
      slice stops at the end of the JPEG. */
  function ChunkPayload(jpeg: seq<byte>, c: nat): seq<byte>
    requires c < NumChunks(|jpeg|)
  {
    NumChunksBound(|jpeg|, c);
    jpeg[c * CHUNK_PAYLOAD .. Min((c + 1) * CHUNK_PAYLOAD, |jpeg|)]
  }

  /** The flags of chunk `c`: START on the first chunk, END on the chunk
      whose end offset reaches `total`. */
  function ChunkFlags(c: nat, total: nat): byte
  {
    (if c == 0 then FLAG_START else 0) + (if (c + 1) * CHUNK_PAYLOAD >= total then FLAG_END else 0)
  }

  /** `ustruct.pack("<IHBBH", frame_id, chunk_id, flags, 0, payload_len)`;
      MicroPython keeps the low-order bytes of a value too wide for its
      field, so `frame_id` and `chunk_id` wrap. */
  function ChunkHeader(jpeg: seq<byte>, frameId: nat, c: nat): seq<byte>
    requires c < NumChunks(|jpeg|)
  {
    Pack(Header(frameId % 0x1_0000_0000, c % 0x1_0000, ChunkFlags(c, |jpeg|), 0, |ChunkPayload(jpeg, c)|))
  }

  /** The bursts of the first `c` chunks: header, payload, header, ... */
  function WritesUpTo(jpeg: seq<byte>, frameId: nat, c: nat): (ws: seq<seq<byte>>)
    requires c <= NumChunks(|jpeg|)
    ensures |ws| == 2 * c
  {
    if c == 0 then []
    else WritesUpTo(jpeg, frameId, c - 1) + [ChunkHeader(jpeg, frameId, c - 1), ChunkPayload(jpeg, c - 1)]
  }

  /** Every burst of a frame sent without a timeout. */
  function FrameWrites(jpeg: seq<byte>, frameId: nat): (ws: seq<seq<byte>>)
    ensures |ws| == 2 * NumChunks(|jpeg|)
  {
    WritesUpTo(jpeg, frameId, NumChunks(|jpeg|))
  }

  /** The payloads of the first `c` chunks. */
  function PayloadsUpTo(jpeg: seq<byte>, c: nat): (ps: seq<seq<byte>>)
    requires c <= NumChunks(|jpeg|)
    ensures |ps| == c
  {
    if c == 0 then [] else PayloadsUpTo(jpeg, c - 1) + [ChunkPayload(jpeg, c - 1)]
  }

  /** Wait `w` of frame `frameId` is the one before burst `w` of that frame
      (wait `2c` before header `c`, wait `2c + 1` before payload `c`); the
      result is the first wait in `from .. bound` that times out, or `bound`
      if none does. */
  function FirstTimeout(ready: (nat, nat) -> bool, frameId: nat, from: nat, bound: nat): (w: nat)
    requires from <= bound
    ensures from <= w <= bound
    decreases bound - from
  {
    if from == bound then bound
    else if !ready(frameId, from) then from
    else FirstTimeout(ready, frameId, from + 1, bound)
  }

  /** The first timeout is the one wait `w` such that every wait before it
      succeeds and `w` itself fails (or is `bound`). */
  lemma {:induction false} FirstTimeoutIs(ready: (nat, nat) -> bool, frameId: nat, from: nat, bound: nat, w: nat)
    requires from <= w <= bound
    ensures FirstTimeout(ready, frameId, from, bound) == w
        <==> (forall v | from <= v < w :: ready(frameId, v)) && (w < bound ==> !ready(frameId, w))
    decreases bound - from
  {
    if from < bound && ready(frameId, from) && from < w {
      FirstTimeoutIs(ready, frameId, from + 1, bound, w);
    }
  }

  /** The bursts one pass of the frame loop writes: those before the first
      timed-out wait. */
  function FrameSent(jpeg: seq<byte>, frameId: nat, ready: (nat, nat) -> bool): (ws: seq<seq<byte>>)
  {
    FrameWrites(jpeg, frameId)[..FirstTimeout(ready, frameId, 0, 2 * NumChunks(|jpeg|))]
  }

  /** The bursts a run over the first `k` frames of `jpegs` writes,
      starting at frame number `first`. */
  function StreamSent(jpegs: seq<seq<byte>>, first: nat, ready: (nat, nat) -> bool, k: nat): seq<seq<byte>>
    requires k <= |jpegs|
  {
    if k == 0 then []
    else StreamSent(jpegs, first, ready, k - 1) + FrameSent(jpegs[k - 1], first + k - 1, ready)
  }

  /** Burst `2i` of the first `c` chunks is header `i`, burst `2i + 1` its
      payload. */
  lemma {:induction false} WritesUpToAt(jpeg: seq<byte>, frameId: nat, c: nat, i: nat)
    requires i < c <= NumChunks(|jpeg|)
    ensures WritesUpTo(jpeg, frameId, c)[2 * i] == ChunkHeader(jpeg, frameId, i)
    ensures WritesUpTo(jpeg, frameId, c)[2 * i + 1] == ChunkPayload(jpeg, i)
  {
    if i < c - 1 {
      WritesUpToAt(jpeg, frameId, c - 1, i);
    }
  }

  /** The bursts of a frame alternate header and payload, chunk by chunk in
      order. */
  lemma FrameWritesAt(jpeg: seq<byte>, frameId: nat, c: nat)
    requires c < NumChunks(|jpeg|)
    ensures FrameWrites(jpeg, frameId)[2 * c] == ChunkHeader(jpeg, frameId, c)
    ensures FrameWrites(jpeg, frameId)[2 * c + 1] == ChunkPayload(jpeg, c)
  {
    WritesUpToAt(jpeg, frameId, NumChunks(|jpeg|), c);
  }

  /** Every payload holds between 1 and 1400 bytes; all but the last hold
      exactly 1400, and the last holds what is left. */
  lemma ChunkSizes(jpeg: seq<byte>, c: nat)
    requires c < NumChunks(|jpeg|)
    ensures 1 <= |ChunkPayload(jpeg, c)| <= CHUNK_PAYLOAD
    ensures c < NumChunks(|jpeg|) - 1 ==> |ChunkPayload(jpeg, c)| == CHUNK_PAYLOAD
    ensures c == NumChunks(|jpeg|) - 1 ==> |ChunkPayload(jpeg, c)| == |jpeg| - c * CHUNK_PAYLOAD
  {
    NumChunksBound(|jpeg|, c);
    NumChunksBound(|jpeg|, c + 1);
  }

  /** Entry `i` of the first `c` payloads is payload `i`. */
  lemma {:induction false} PayloadsUpToAt(jpeg: seq<byte>, c: nat, i: nat)
    requires i < c <= NumChunks(|jpeg|)
    ensures PayloadsUpTo(jpeg, c)[i] == ChunkPayload(jpeg, i)
  {
    if i < c - 1 {
      PayloadsUpToAt(jpeg, c - 1, i);
    }
  }

  /** The payloads of the first `c` chunks, joined, are the JPEG up to
      offset `c * 1400`. */
  lemma {:induction false} PayloadsPrefix(jpeg: seq<byte>, c: nat)
    requires c <= NumChunks(|jpeg|)
    ensures Concat(PayloadsUpTo(jpeg, c)) == jpeg[..Min(c * CHUNK_PAYLOAD, |jpeg|)]
  {
    if c > 0 {
      var ps := PayloadsUpTo(jpeg, c);
      assert ps[..c - 1] == PayloadsUpTo(jpeg, c - 1);
      PayloadsPrefix(jpeg, c - 1);
      NumChunksBound(|jpeg|, c - 1);
      assert jpeg[..Min(c * CHUNK_PAYLOAD, |jpeg|)]
          == jpeg[..(c - 1) * CHUNK_PAYLOAD] + ChunkPayload(jpeg, c - 1);
    }
  }

  /** The payloads of a frame, joined, are the JPEG exactly. */
  lemma PayloadsCover(jpeg: seq<byte>)
    ensures Concat(PayloadsUpTo(jpeg, NumChunks(|jpeg|))) == jpeg
  {
    var n := NumChunks(|jpeg|);
    PayloadsPrefix(jpeg, n);
    NumChunksBound(|jpeg|, n);
    assert jpeg[..|jpeg|] == jpeg;
  }

  /** START is set on chunk 0 and on no other, END on the last chunk and on
      no other, and no other bit is ever set; a JPEG of at most 1400 bytes
      goes out as one chunk with both flags. */
  lemma ChunkFlagsMark(total: nat, c: nat)
    requires c < NumChunks(total)
    ensures HasStart(ChunkFlags(c, total)) <==> c == 0
    ensures HasEnd(ChunkFlags(c, total)) <==> c == NumChunks(total) - 1
    ensures ChunkFlags(c, total) < 4
    ensures 0 < total <= CHUNK_PAYLOAD ==> NumChunks(total) == 1 && ChunkFlags(0, total) == FLAG_START + FLAG_END
  {
    NumChunksBound(total, c + 1);
    NumChunksBound(total, 1);
  }

  /** A chunk header unpacks to the frame and chunk number (modulo their
      widths), the chunk's flags, a zero `rsv` and the payload's true
      length. */
  lemma ChunkHeaderFields(jpeg: seq<byte>, frameId: nat, c: nat)
    requires c < NumChunks(|jpeg|)
    ensures |ChunkHeader(jpeg, frameId, c)| == HDR_LEN
    ensures Unpack(ChunkHeader(jpeg, frameId, c))
         == Header(frameId % 0x1_0000_0000, c % 0x1_0000, ChunkFlags(c, |jpeg|), 0, |ChunkPayload(jpeg, c)|)
  {
    ChunkSizes(jpeg, c);
    UnpackPack(Header(frameId % 0x1_0000_0000, c % 0x1_0000, ChunkFlags(c, |jpeg|), 0, |ChunkPayload(jpeg, c)|));
  }

  /** With every wait successful the whole frame goes out. */
  lemma FrameSentWhole(jpeg: seq<byte>, frameId: nat, ready: (nat, nat) -> bool)
    requires forall v | 0 <= v < 2 * NumChunks(|jpeg|) :: ready(frameId, v)
    ensures FrameSent(jpeg, frameId, ready) == FrameWrites(jpeg, frameId)
  {
    var n := NumChunks(|jpeg|);
    FirstTimeoutIs(ready, frameId, 0, 2 * n, 2 * n);
  }

  /** After a wait `w` times out nothing more of the frame is written: what
      went out is a prefix of the frame's bursts ending before burst `w`, so
      the last payload, the one that completes the END chunk, is missing. */
  lemma FrameSentTimeout(jpeg: seq<byte>, frameId: nat, ready: (nat, nat) -> bool, w: nat)
    requires w < 2 * NumChunks(|jpeg|) && !ready(frameId, w)
    ensures |FrameSent(jpeg, frameId, ready)| <= w < |FrameWrites(jpeg, frameId)|
    ensures FrameSent(jpeg, frameId, ready) == FrameWrites(jpeg, frameId)[..|FrameSent(jpeg, frameId, ready)|]
  {
    var n := NumChunks(|jpeg|);
    FirstTimeoutIs(ready, frameId, 0, 2 * n, FirstTimeout(ready, frameId, 0, 2 * n));
  }

  /** The camera's loop state: the frame counter and every burst written to
      the bridge so far. */
  class Camera {
    var frameId: nat
    var writes: seq<seq<byte>>

    /** `frame_id = 0`, nothing written yet. */
    constructor()
      ensures frameId == 0 && writes == []
    {
      frameId := 0;
      writes := [];
    }

    /** One pass of `while True` for a JPEG: the chunk loop, then
        `frame_id += 1` whether or not the frame went out whole. `ready`
        stands for `wait_rdy`; `chunks` is the final `chunk_id`, the number
        of chunks written whole. */
    method SendFrame(jpeg: seq<byte>, ready: (nat, nat) -> bool) returns (chunks: nat)
      modifies this
      ensures frameId == old(frameId) + 1
      ensures writes == old(writes) + FrameSent(jpeg, old(frameId), ready)
      ensures chunks == |FrameSent(jpeg, old(frameId), ready)| / 2
    {
      var total := |jpeg|;
      ghost var n := NumChunks(total);
      ghost var fw := FrameWrites(jpeg, frameId);
      ghost var stop := 2 * n;
      var chunkId := 0;
      var off := 0;
      while off < total
        invariant chunkId <= n && off == Min(chunkId * CHUNK_PAYLOAD, total)
        invariant off < total <==> chunkId < n
        invariant writes == old(writes) + fw[..2 * chunkId]
        invariant forall v | 0 <= v < 2 * chunkId :: ready(frameId, v)
        invariant frameId == old(frameId) && stop == 2 * n
        decreases total - off
      {
        var payload, hdr;
        payload, hdr, off := CutChunk(jpeg, frameId, chunkId, off);
        FrameWritesAt(jpeg, frameId, chunkId);

        if !ready(frameId, 2 * chunkId) {
          stop := 2 * chunkId;
          break;
        }
        Write(old(writes), fw, 2 * chunkId, hdr);

        if !ready(frameId, 2 * chunkId + 1) {
          stop := 2 * chunkId + 1;
          break;
        }
        Write(old(writes), fw, 2 * chunkId + 1, payload);
        chunkId := chunkId + 1;
      }
      assert writes == old(writes) + fw[..stop] && stop / 2 == chunkId;
      FirstTimeoutIs(ready, frameId, 0, 2 * n, stop);
      assert FrameSent(jpeg, frameId, ready) == fw[..stop];
      chunks := chunkId;
      frameId := frameId + 1;
    }

    /** `spi.write(x)`: one more write, the next of the frame's writes
        `fw`. */
    method Write(ghost base: seq<seq<byte>>, ghost fw: seq<seq<byte>>, ghost i: nat, x: seq<byte>)
      requires i < |fw| && x == fw[i] && writes == base + fw[..i]
      modifies this
      ensures writes == base + fw[..i + 1] && frameId == old(frameId)
    {
      AppendAssoc(base, fw[..i], [x]);
      assert fw[..i + 1] == fw[..i] + [x];
      writes := writes + [x];
    }

    /** Lines 135-145 of the chunk loop: slice the next payload, advance
        `off`, set the flags and pack the header. */
    static method CutChunk(jpeg: seq<byte>, frameId: nat, chunkId: nat, off: nat)
      returns (payload: seq<byte>, hdr: seq<byte>, off': nat)
      requires chunkId < NumChunks(|jpeg|) && off == chunkId * CHUNK_PAYLOAD
      ensures payload == ChunkPayload(jpeg, chunkId) && hdr == ChunkHeader(jpeg, frameId, chunkId)
      ensures off' == Min((chunkId + 1) * CHUNK_PAYLOAD, |jpeg|)
      ensures off' < |jpeg| <==> chunkId + 1 < NumChunks(|jpeg|)
    {
      var total := |jpeg|;
      NumChunksBound(total, chunkId);
      NumChunksBound(total, chunkId + 1);
      ChunkSizes(jpeg, chunkId);
      OrFlags();
      payload := jpeg[off .. Min(off + CHUNK_PAYLOAD, total)];
      var payloadLen := |payload|;
      off' := off + payloadLen;

      var flags := 0;
      if chunkId == 0 {
        flags := Or(flags, FLAG_START);
      }
      if off' >= total {
        flags := Or(flags, FLAG_END);
      }
      hdr := Pack(Header(frameId % 0x1_0000_0000, chunkId % 0x1_0000, flags, 0, payloadLen));
    }

    /** Frame `j` of the outer loop, seen as extending the run over the
        first `j` frames. */
    method NextFrame(jpegs: seq<seq<byte>>, j: nat, ghost first: nat, ghost start: seq<seq<byte>>, ready: (nat, nat) -> bool)
      requires j < |jpegs| && frameId == first + j
      requires writes == start + StreamSent(jpegs, first, ready, j)
      modifies this
      ensures frameId == first + j + 1
      ensures writes == start + StreamSent(jpegs, first, ready, j + 1)
    {
      ghost var sent := StreamSent(jpegs, first, ready, j);
      var _ := SendFrame(jpegs[j], ready);
      AppendAssoc(start, sent, FrameSent(jpegs[j], first + j, ready));
    }

    /** The outer `while True` over a finite list of captured JPEGs. */
    method Stream(jpegs: seq<seq<byte>>, ready: (nat, nat) -> bool)
      modifies this
      ensures frameId == old(frameId) + |jpegs|
      ensures writes == old(writes) + StreamSent(jpegs, old(frameId), ready, |jpegs|)
    {
      var j := 0;
      while j < |jpegs|
        invariant j <= |jpegs|
        invariant frameId == old(frameId) + j
        invariant writes == old(writes) + StreamSent(jpegs, old(frameId), ready, j)
      {
        NextFrame(jpegs, j, old(frameId), old(writes), ready);
        j := j + 1;
      }
    }
  }
}
