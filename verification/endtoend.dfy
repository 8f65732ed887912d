/** One frame end to end: the camera's bursts, forwarded by the bridge,
    reassembled by the PC server. */
module EndToEnd {
  import opened Wire
  import opened Chunker
  import opened Bridge
  import opened Reassembler

  /** The bridge forwards each chunk unchanged: its header declares the
      payload's true length, which never exceeds 1400 and so is never
      clamped to 2048. */
  lemma ChunkForwarded(jpeg: seq<byte>, frameId: nat, c: nat)
    requires c < NumChunks(|jpeg|)
    ensures var hdr := ChunkHeader(jpeg, frameId, c);
      && DeclaredLen(hdr) == |ChunkPayload(jpeg, c)| <= CHUNK_PAYLOAD < PAYLOAD_MAX
      && Forwarded(hdr, ChunkPayload(jpeg, c)) == hdr + ChunkPayload(jpeg, c)
  {
    var hdr := ChunkHeader(jpeg, frameId, c);
    ChunkHeaderFields(jpeg, frameId, c);
    ChunkSizes(jpeg, c);
    DeclaredLenUnpack(hdr);
    ForwardedWellFormed(hdr, ChunkPayload(jpeg, c));
  }

  /** Datagram `c` the bridge emits for a frame is chunk `c`: its header
      followed by its payload. */
  lemma FrameForwarded(jpeg: seq<byte>, frameId: nat)
    ensures var n := NumChunks(|jpeg|);
      forall c | 0 <= c < n :: ForwardPairs(FrameWrites(jpeg, frameId), n)[c]
        == ChunkHeader(jpeg, frameId, c) + ChunkPayload(jpeg, c)
  {
    var n := NumChunks(|jpeg|);
    forall c | 0 <= c < n
      ensures ForwardPairs(FrameWrites(jpeg, frameId), n)[c] == ChunkHeader(jpeg, frameId, c) + ChunkPayload(jpeg, c)
    {
      ForwardPairsAt(FrameWrites(jpeg, frameId), n, c);
      FrameWritesAt(jpeg, frameId, c);
      ChunkForwarded(jpeg, frameId, c);
    }
  }

  /** Those datagrams are, to the server, one whole frame numbered
      `frameId` modulo 2^32 whose payloads are the chunk payloads. */
  lemma FrameChunks(jpeg: seq<byte>, frameId: nat)
    requires |jpeg| > 0
    ensures var n := NumChunks(|jpeg|);
      FrameDatagrams(ForwardPairs(FrameWrites(jpeg, frameId), n), frameId % 0x1_0000_0000, PayloadsUpTo(jpeg, n))
  {
    var n := NumChunks(|jpeg|);
    var ds := ForwardPairs(FrameWrites(jpeg, frameId), n);
    var ps := PayloadsUpTo(jpeg, n);
    NumChunksBound(|jpeg|, 0);
    FrameForwarded(jpeg, frameId);
    forall i | 0 <= i < n
      ensures ChunkAt(ds, frameId % 0x1_0000_0000, ps, i)
    {
      var hdr := ChunkHeader(jpeg, frameId, i);
      PayloadsUpToAt(jpeg, n, i);
      ChunkHeaderFields(jpeg, frameId, i);
      ChunkFlagsMark(|jpeg|, i);
      UnpackAppend(hdr, ChunkPayload(jpeg, i));
      assert ds[i][HDR_LEN..] == ps[i];
    }
  }

  /** The round trip: with every RDY wait of the frame successful, the
      bursts the camera writes drive the bridge through one iteration per
      chunk, none of them failing or left over, and the server fed the
      datagrams in order finishes exactly one frame, the original JPEG,
      leaving every other partial frame as it was. */
  lemma RoundTrip(jpeg: seq<byte>, frameId: nat, ready: (nat, nat) -> bool, cur: map<nat, seq<byte>>)
    requires |jpeg| > 0
    requires forall v | 0 <= v < 2 * NumChunks(|jpeg|) :: ready(frameId, v)
    ensures var n := NumChunks(|jpeg|);
      var r := Loop(Bursts(FrameSent(jpeg, frameId, ready)), n);
      && r.status == Running && r.rest == []
      && |Datagrams(r.events)| == n
      && Serve(cur, Datagrams(r.events), n) == Served(cur - {frameId % 0x1_0000_0000}, [jpeg])
  {
    var n := NumChunks(|jpeg|);
    var fw := FrameWrites(jpeg, frameId);
    FrameSentWhole(jpeg, frameId, ready);
    LoopSequential(fw, n);
    assert fw[2 * n..] == [];
    FrameChunks(jpeg, frameId);
    ServeFrame(cur, ForwardPairs(fw, n), frameId % 0x1_0000_0000, PayloadsUpTo(jpeg, n));
    PayloadsCover(jpeg);
  }
}
