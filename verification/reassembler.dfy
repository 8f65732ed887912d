/** The PC server: it reassembles frames from the datagrams the bridge
    sends, keeping one growing buffer per frame number that has seen START. */
module Reassembler {
  import opened Wire

  /** The partial frames, by frame number (`cur`), and what one datagram
      produced: the finished frame, if it completed one. */
  datatype Outcome = Outcome(cur: map<nat, seq<byte>>, jpg: Option<seq<byte>>)

  /** The partial frames after a run of datagrams and the frames finished
      on the way, in order. */
  datatype Served = Served(cur: map<nat, seq<byte>>, frames: seq<seq<byte>>)

  /** `data[HDR_LEN : HDR_LEN + payload_len]`: the declared payload, cut
      short where the datagram ends. */
  function PayloadOf(data: seq<byte>): (p: seq<byte>)
    requires |data| >= HDR_LEN
    ensures |p| == Min(|data| - HDR_LEN, Unpack(data).payloadLen)
    ensures p == data[HDR_LEN..][..|p|]
  {
    data[HDR_LEN .. Min(|data|, HDR_LEN + Unpack(data).payloadLen)]
  }

  /** One turn of the server loop, from the received datagram on. */
  function Accept(cur: map<nat, seq<byte>>, data: seq<byte>): Outcome
  {
    if |data| < HDR_LEN then Outcome(cur, None)
    else
      var h := Unpack(data);
      var started := if HasStart(h.flags) then cur[h.frameId := []] else cur;
      if h.frameId !in started then Outcome(cur, None)
      else
        var grown := started[h.frameId := started[h.frameId] + PayloadOf(data)];
        if HasEnd(h.flags) then Outcome(grown - {h.frameId}, Some(grown[h.frameId]))
        else Outcome(grown, None)
  }

  /** The server loop over the first `k` datagrams of `ds`, in order. */
  function Serve(cur: map<nat, seq<byte>>, ds: seq<seq<byte>>, k: nat): Served
    requires k <= |ds|
  {
    if k == 0 then Served(cur, [])
    else
      var r := Serve(cur, ds, k - 1);
      var o := Accept(r.cur, ds[k - 1]);
      Served(o.cur, r.frames + (if o.jpg.Some? then [o.jpg.value] else []))
  }

  /** `m` and `m'` agree on every frame number but `k`. */
  predicate SameElsewhere(m: map<nat, seq<byte>>, m': map<nat, seq<byte>>, k: nat)
  {
    m - {k} == m' - {k}
  }

  /** A datagram shorter than the header changes nothing and finishes
      nothing. */
  lemma AcceptShort(cur: map<nat, seq<byte>>, data: seq<byte>)
    requires |data| < HDR_LEN
    ensures Accept(cur, data) == Outcome(cur, None)
  {
  }

  /** A chunk without START for a frame that has no buffer is dropped: the
      buffers stay as they were. */
  lemma AcceptUnknown(cur: map<nat, seq<byte>>, data: seq<byte>)
    requires |data| >= HDR_LEN && !HasStart(Unpack(data).flags) && Unpack(data).frameId !in cur
    ensures Accept(cur, data) == Outcome(cur, None)
  {
  }

  /** A chunk that is accepted and does not end its frame: its frame's
      buffer becomes the old buffer (or nothing, on START) followed by the
      payload, and no other frame's buffer changes. */
  lemma AcceptGrow(cur: map<nat, seq<byte>>, data: seq<byte>)
    requires |data| >= HDR_LEN
    requires HasStart(Unpack(data).flags) || Unpack(data).frameId in cur
    requires !HasEnd(Unpack(data).flags)
    ensures var h := Unpack(data);
      var before := if HasStart(h.flags) then [] else cur[h.frameId];
      var o := Accept(cur, data);
      && o.jpg == None
      && h.frameId in o.cur && o.cur[h.frameId] == before + PayloadOf(data)
      && SameElsewhere(cur, o.cur, h.frameId)
  {
  }

  /** A chunk that is accepted and ends its frame: the frame is finished
      as the old buffer (or nothing, on START) followed by the payload, its
      buffer is dropped, and no other frame's buffer changes. */
  lemma AcceptFinish(cur: map<nat, seq<byte>>, data: seq<byte>)
    requires |data| >= HDR_LEN
    requires HasStart(Unpack(data).flags) || Unpack(data).frameId in cur
    requires HasEnd(Unpack(data).flags)
    ensures var h := Unpack(data);
      var before := if HasStart(h.flags) then [] else cur[h.frameId];
      var o := Accept(cur, data);
      && o.jpg == Some(before + PayloadOf(data))
      && h.frameId !in o.cur
      && SameElsewhere(cur, o.cur, h.frameId)
  {
  }

  /** Whatever arrives, only the datagram's own frame can change, and a
      frame is finished only by a chunk carrying END. */
  lemma AcceptLocal(cur: map<nat, seq<byte>>, data: seq<byte>)
    requires |data| >= HDR_LEN
    ensures SameElsewhere(cur, Accept(cur, data).cur, Unpack(data).frameId)
    ensures Accept(cur, data).jpg.Some? ==> HasEnd(Unpack(data).flags)
  {
  }

  /** The datagrams `ds` carry one whole frame numbered `fid` whose
      payloads are `ps`: START on the first chunk only, END on the last
      only, and each datagram its header followed by exactly the declared
      payload. */
  predicate FrameDatagrams(ds: seq<seq<byte>>, fid: nat, ps: seq<seq<byte>>)
  {
    && |ds| == |ps| >= 1
    && forall i | 0 <= i < |ds| :: ChunkAt(ds, fid, ps, i)
  }

  /** Datagram `i` of `ds` is chunk `i` of the frame: payload `ps[i]`,
      START exactly when it is the first, END exactly when it is the last. */
  predicate ChunkAt(ds: seq<seq<byte>>, fid: nat, ps: seq<seq<byte>>, i: nat)
    requires i < |ds| == |ps|
  {
    && IsChunk(ds[i], fid, ps[i])
    && (HasStart(Unpack(ds[i]).flags) <==> i == 0)
    && (HasEnd(Unpack(ds[i]).flags) <==> i == |ds| - 1)
  }

  /** `d` is a chunk of frame `fid`: a header followed by exactly the
      declared payload `p`. */
  predicate IsChunk(d: seq<byte>, fid: nat, p: seq<byte>)
  {
    |d| >= HDR_LEN && d[HDR_LEN..] == p && Unpack(d).frameId == fid && Unpack(d).payloadLen == |p|
  }

  /** A well-formed chunk for `fid` that the server accepts: its payload is
      appended to the frame's buffer (a fresh one on START), and on END the
      frame is finished and its buffer dropped. */
  lemma AcceptChunk(cur: map<nat, seq<byte>>, d: seq<byte>, fid: nat, p: seq<byte>)
    requires IsChunk(d, fid, p)
    requires HasStart(Unpack(d).flags) || fid in cur
    ensures var before := if HasStart(Unpack(d).flags) then [] else cur[fid];
      Accept(cur, d) == if HasEnd(Unpack(d).flags) then Outcome(cur - {fid}, Some(before + p))
        else Outcome(cur[fid := before + p], None)
  {
    assert PayloadOf(d) == p;
    var started := if HasStart(Unpack(d).flags) then cur[fid := []] else cur;
    assert started[fid := started[fid] + p] - {fid} == cur - {fid};
    assert started[fid := started[fid] + p] == cur[fid := started[fid] + p];
  }

  /** The first chunk of a frame of several opens the frame's buffer with
      its payload and finishes nothing. */
  lemma ServeOpen(cur: map<nat, seq<byte>>, ds: seq<seq<byte>>, fid: nat, ps: seq<seq<byte>>)
    requires FrameDatagrams(ds, fid, ps) && |ds| > 1
    ensures Serve(cur, ds, 1) == Served(cur[fid := Concat(ps[..1])], [])
  {
    assert ChunkAt(ds, fid, ps, 0);
    AcceptChunk(cur, ds[0], fid, ps[0]);
    assert [] + ps[0] == ps[0];
    assert ps[..1] == [ps[0]];
    assert Concat(ps[..1]) == ps[0];
  }

  /** A frame of one chunk is finished by it at once. */
  lemma ServeSingle(cur: map<nat, seq<byte>>, ds: seq<seq<byte>>, fid: nat, ps: seq<seq<byte>>)
    requires FrameDatagrams(ds, fid, ps) && |ds| == 1
    ensures Serve(cur, ds, 1) == Served(cur - {fid}, [Concat(ps)])
  {
    assert ChunkAt(ds, fid, ps, 0);
    AcceptChunk(cur, ds[0], fid, ps[0]);
    assert [] + ps[0] == ps[0];
    assert ps == [ps[0]];
    assert Concat(ps) == ps[0];
  }

  /** A middle chunk `k` of a frame that is under way extends its buffer by
      its payload and finishes nothing. */
  lemma ServeGrow(cur: map<nat, seq<byte>>, ds: seq<seq<byte>>, fid: nat, ps: seq<seq<byte>>, k: nat)
    requires FrameDatagrams(ds, fid, ps) && 1 <= k && k + 1 < |ds|
    requires Serve(cur, ds, k) == Served(cur[fid := Concat(ps[..k])], [])
    ensures Serve(cur, ds, k + 1) == Served(cur[fid := Concat(ps[..k + 1])], [])
  {
    var m := cur[fid := Concat(ps[..k])];
    assert ChunkAt(ds, fid, ps, k);
    AcceptChunk(m, ds[k], fid, ps[k]);
    assert ps[..k + 1][..k] == ps[..k];
    assert Concat(ps[..k + 1]) == Concat(ps[..k]) + ps[k];
    assert m[fid := Concat(ps[..k + 1])] == cur[fid := Concat(ps[..k + 1])];
  }

  /** The last chunk of a frame that is under way finishes it as its buffer
      followed by the last payload, and drops the buffer. */
  lemma ServeLast(cur: map<nat, seq<byte>>, ds: seq<seq<byte>>, fid: nat, ps: seq<seq<byte>>)
    requires FrameDatagrams(ds, fid, ps) && |ds| > 1
    requires Serve(cur, ds, |ds| - 1) == Served(cur[fid := Concat(ps[..|ds| - 1])], [])
    ensures Serve(cur, ds, |ds|) == Served(cur - {fid}, [Concat(ps)])
  {
    var k := |ds| - 1;
    var m := cur[fid := Concat(ps[..k])];
    assert ChunkAt(ds, fid, ps, k);
    assert Concat(ps) == Concat(ps[..k]) + ps[k];
    assert m - {fid} == cur - {fid};
    AcceptChunk(m, ds[k], fid, ps[k]);
  }

  /** Before the last chunk of such a frame, after its first `k` chunks,
      its buffer holds their payloads in order and nothing is finished. */
  lemma {:induction false} ServePrefix(cur: map<nat, seq<byte>>, ds: seq<seq<byte>>, fid: nat, ps: seq<seq<byte>>, k: nat)
    requires FrameDatagrams(ds, fid, ps) && 1 <= k < |ds|
    ensures Serve(cur, ds, k) == Served(cur[fid := Concat(ps[..k])], [])
  {
    if k == 1 {
      ServeOpen(cur, ds, fid, ps);
    } else {
      ServePrefix(cur, ds, fid, ps, k - 1);
      ServeGrow(cur, ds, fid, ps, k - 1);
    }
  }

  /** The whole frame: its bytes are finished once, as all its payloads in
      order, and its buffer is gone; every other frame's buffer is as it
      was. */
  lemma ServeFrame(cur: map<nat, seq<byte>>, ds: seq<seq<byte>>, fid: nat, ps: seq<seq<byte>>)
    requires FrameDatagrams(ds, fid, ps)
    ensures Serve(cur, ds, |ds|) == Served(cur - {fid}, [Concat(ps)])
  {
    if |ds| == 1 {
      ServeSingle(cur, ds, fid, ps);
    } else {
      ServePrefix(cur, ds, fid, ps, |ds| - 1);
      ServeLast(cur, ds, fid, ps);
    }
  }

  /** The server's loop state: the partial frames. */
  class Server {
    var cur: map<nat, seq<byte>>

    /** `cur = {}`. */
    constructor()
      ensures cur == map[]
    {
      cur := map[];
    }

    /** One datagram: lines 16-34 of the loop body; the finished frame, if
        any, is what the server writes to its file. */
    method Handle(data: seq<byte>) returns (jpg: Option<seq<byte>>)
      modifies this
      ensures Outcome(cur, jpg) == Accept(old(cur), data)
    {
      if |data| < HDR_LEN {
        return None;
      }
      var h := Unpack(data);
      var payload := data[HDR_LEN .. Min(|data|, HDR_LEN + h.payloadLen)];
      if HasStart(h.flags) {
        cur := cur[h.frameId := []];
      }
      if h.frameId !in cur {
        return None;
      }
      cur := cur[h.frameId := cur[h.frameId] + payload];
      if HasEnd(h.flags) {
        jpg := Some(cur[h.frameId]);
        cur := cur - {h.frameId};
      } else {
        jpg := None;
      }
    }

    /** The `while True` loop over a finite run of datagrams; `frames` are
        the frames written, in order. */
    method ServeAll(ds: seq<seq<byte>>) returns (frames: seq<seq<byte>>)
      modifies this
      ensures Served(cur, frames) == Serve(old(cur), ds, |ds|)
    {
      frames := [];
      var i := 0;
      while i < |ds|
        invariant i <= |ds|
        invariant Served(cur, frames) == Serve(old(cur), ds, i)
      {
        var jpg := Handle(ds[i]);
        if jpg.Some? {
          frames := frames + [jpg.value];
        }
        i := i + 1;
      }
    }
  }
}
