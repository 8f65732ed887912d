/** The ESP32-C3 bridge: `spi_udp_forward_loop` receives a 10-byte header and
    then a payload over the SPI slave link, raising the RDY line before each
    phase, and forwards `header ++ payload` as one UDP datagram.

    The SPI master's side is a sequence of transfers: each `spi_slave_transmit`
    takes the next one. A `Burst` is what the master clocks in while chip
    select is low; a `Fault` is an error return, which `ESP_ERROR_CHECK` turns
    into an abort. When no transfer is left the receive waits forever
    (`portMAX_DELAY`). */
module Bridge {
  import opened Wire

  const PAYLOAD_MAX: nat := 2048
  const OUT_LEN: nat := HDR_LEN + PAYLOAD_MAX

  datatype Transfer = Burst(bytes: seq<byte>) | Fault

  /** What the loop does that the outside world sees: RDY driven high (the
      loop only ever writes the high level), a receive request of some length
      on the SPI slave, a datagram handed to `sendto`. */
  datatype Event = RdyHigh | Recv(requested: nat) | Send(datagram: seq<byte>)

  /** Running: ready for the next iteration. Aborted: a receive failed and the
      process was aborted. Blocked: a receive is waiting for a transfer that
      never comes. */
  datatype Status = Running | Aborted | Blocked

  /** The effect of some iterations: the events, the status afterwards and
      the transfers not yet consumed. */
  datatype Run = Run(events: seq<Event>, status: Status, rest: seq<Transfer>)

  /** The bus a master produces by writing each of `ws` as one chip-select
      burst, in order. */
  function Bursts(ws: seq<seq<byte>>): (bus: seq<Transfer>)
    ensures |bus| == |ws|
  {
    if ws == [] then [] else [Burst(ws[0])] + Bursts(ws[1..])
  }

  /** The first two transfers, then the bursts of the rest. */
  lemma BurstsPair(ws: seq<seq<byte>>)
    requires |ws| >= 2
    ensures Bursts(ws) == [Burst(ws[0]), Burst(ws[1])] + Bursts(ws[2..])
  {
    assert ws[1..][1..] == ws[2..];
  }

  function Zeros(n: nat): (z: seq<byte>)
    ensures |z| == n && forall i | 0 <= i < n :: z[i] == 0
  {
    seq(n, _ => 0)
  }

  /** The first `n` bytes of a buffer zeroed by `memset` after a receive of
      `n` bytes from `burst`: the master's bytes as far as they go, zeros
      after them; bytes past `n` are not taken. */
  function Received(burst: seq<byte>, n: nat): (r: seq<byte>)
    ensures |r| == n
  {
    if n <= |burst| then burst[..n] else burst + Zeros(n - |burst|)
  }

  /** Byte `i` of the buffer is the master's byte `i` if it sent one, else 0. */
  lemma ReceivedAt(burst: seq<byte>, n: nat, i: nat)
    requires i < n
    ensures Received(burst, n)[i] == if i < |burst| then burst[i] else 0
  {
  }

  /** The payload length the bridge reads: header bytes 8 and 9, low byte
      first. */
  function DeclaredLen(hdr: seq<byte>): (n: nat)
    requires |hdr| == HDR_LEN
    ensures n < 0x1_0000
  {
    hdr[8] as int + 0x100 * hdr[9] as int
  }

  /** The bridge reads the same payload length as the PC server's unpack. */
  lemma DeclaredLenUnpack(hdr: seq<byte>)
    requires |hdr| == HDR_LEN
    ensures DeclaredLen(hdr) == Unpack(hdr).payloadLen
  {
  }

  /** The clamp to the payload buffer's capacity. */
  function Clamp(n: nat): (m: nat)
    ensures m <= PAYLOAD_MAX && m <= n
    ensures m == n || m == PAYLOAD_MAX
  {
    if n > PAYLOAD_MAX then PAYLOAD_MAX else n
  }

  /** The datagram one iteration sends, built from the header transfer and
      the payload transfer. */
  function Forwarded(headerBurst: seq<byte>, payloadBurst: seq<byte>): seq<byte>
  {
    var hdr := Received(headerBurst, HDR_LEN);
    hdr + Received(payloadBurst, Clamp(DeclaredLen(hdr)))
  }

  /** The datagram is `HDR_LEN` plus the clamped declared length long, so
      between 10 and 2058 bytes; its first ten bytes are the header transfer
      byte for byte and the rest are the first bytes of the payload transfer,
      zero-filled where the master sent fewer. */
  lemma ForwardedLayout(headerBurst: seq<byte>, payloadBurst: seq<byte>)
    ensures var d := Forwarded(headerBurst, payloadBurst);
      var n := Clamp(DeclaredLen(Received(headerBurst, HDR_LEN)));
      && |d| == HDR_LEN + n && HDR_LEN <= |d| <= OUT_LEN
      && (forall i | 0 <= i < HDR_LEN :: d[i] == if i < |headerBurst| then headerBurst[i] else 0)
      && (forall i | 0 <= i < n :: d[HDR_LEN + i] == if i < |payloadBurst| then payloadBurst[i] else 0)
  {
    var hdr := Received(headerBurst, HDR_LEN);
    var n := Clamp(DeclaredLen(hdr));
    forall i | 0 <= i < HDR_LEN
      ensures Forwarded(headerBurst, payloadBurst)[i] == if i < |headerBurst| then headerBurst[i] else 0
    {
      ReceivedAt(headerBurst, HDR_LEN, i);
    }
    forall i | 0 <= i < n
      ensures Forwarded(headerBurst, payloadBurst)[HDR_LEN + i] == if i < |payloadBurst| then payloadBurst[i] else 0
    {
      ReceivedAt(payloadBurst, n, i);
    }
  }

  /** One receive phase: raise RDY, then ask the SPI slave for `n` bytes. */
  function Phase(n: nat): seq<Event>
  {
    [RdyHigh, Recv(n)]
  }

  /** One pass of the `while (1)` body: the header phase, then, if it
      received a header, the payload phase. */
  function Iteration(bus: seq<Transfer>): (r: Run)
  {
    if bus == [] then Run(Phase(HDR_LEN), Blocked, [])
    else if bus[0].Fault? then Run(Phase(HDR_LEN), Aborted, bus[1..])
    else Then(Phase(HDR_LEN), PayloadStep(Received(bus[0].bytes, HDR_LEN), bus[1..]))
  }

  /** The rest of an iteration once the header `hdr` is in: the payload
      phase for the clamped declared length, then the datagram. */
  function PayloadStep(hdr: seq<byte>, bus: seq<Transfer>): (r: Run)
    requires |hdr| == HDR_LEN
  {
    var n := Clamp(DeclaredLen(hdr));
    if bus == [] then Run(Phase(n), Blocked, [])
    else if bus[0].Fault? then Run(Phase(n), Aborted, bus[1..])
    else Run(Phase(n) + [Send(hdr + Received(bus[0].bytes, n))], Running, bus[1..])
  }

  /** `events` followed by the run `r`. */
  function Then(events: seq<Event>, r: Run): Run
  {
    Run(events + r.events, r.status, r.rest)
  }

  /** At most `k` runs of `step`, stopping at the first that does not end
      `Running`. */
  function Repeat(step: seq<Transfer> -> Run, bus: seq<Transfer>, k: nat): (r: Run)
    decreases k
  {
    if k == 0 then Run([], Running, bus)
    else if step(bus).status != Running then step(bus)
    else Then(step(bus).events, Repeat(step, step(bus).rest, k - 1))
  }

  /** At most `k` iterations, stopping at the first abort or block. */
  function Loop(bus: seq<Transfer>, k: nat): (r: Run)
  {
    Repeat(Iteration, bus, k)
  }

  /** A run of `i + 1` steps is a run of `i` steps followed, if it is still
      running, by one more. */
  lemma {:induction false} RepeatSnoc(step: seq<Transfer> -> Run, bus: seq<Transfer>, i: nat)
    ensures var r := Repeat(step, bus, i);
      Repeat(step, bus, i + 1) == if r.status != Running then r else Then(r.events, step(r.rest))
    decreases i
  {
    var it := step(bus);
    if i > 0 {
      if it.status == Running {
        RepeatSnoc(step, it.rest, i - 1);
        var r := Repeat(step, it.rest, i - 1);
        if r.status == Running {
          assert it.events + (r.events + step(r.rest).events) == (it.events + r.events) + step(r.rest).events;
        }
      }
    } else {
      assert [] + it.events == it.events + [] == it.events;
    }
  }

  /** Once the run has stopped, further steps do nothing. */
  lemma {:induction false} RepeatStopped(step: seq<Transfer> -> Run, bus: seq<Transfer>, i: nat, k: nat)
    requires i <= k && (i < k ==> Repeat(step, bus, i).status != Running)
    ensures Repeat(step, bus, k) == Repeat(step, bus, i)
    decreases i
  {
    if i < k && i > 0 {
      var it := step(bus);
      if it.status == Running {
        RepeatStopped(step, it.rest, i - 1, k - 1);
      }
    }
  }

  /** Iteration `i + 1` of the loop follows the first `i`. */
  lemma LoopSnoc(bus: seq<Transfer>, i: nat)
    ensures var r := Loop(bus, i);
      Loop(bus, i + 1) == if r.status != Running then r else Then(r.events, Iteration(r.rest))
  {
    RepeatSnoc(Iteration, bus, i);
  }

  /** Once the loop has aborted or blocked, it does nothing more. */
  lemma LoopStopped(bus: seq<Transfer>, i: nat, k: nat)
    requires i <= k && (i < k ==> Loop(bus, i).status != Running)
    ensures Loop(bus, k) == Loop(bus, i)
  {
    RepeatStopped(Iteration, bus, i, k);
  }

  /** The datagrams sent, in order. */
  function Datagrams(events: seq<Event>): (ds: seq<seq<byte>>)
    ensures |ds| <= |events|
  {
    if events == [] then []
    else if events[0].Send? then [events[0].datagram] + Datagrams(events[1..])
    else Datagrams(events[1..])
  }

  /** The number of times RDY is driven high; the loop never drives it low. */
  function RdyWrites(events: seq<Event>): (p: nat)
    ensures p <= |events|
  {
    if events == [] then 0 else (if events[0].RdyHigh? then 1 else 0) + RdyWrites(events[1..])
  }

  lemma {:induction false} DatagramsAppend(a: seq<Event>, b: seq<Event>)
    ensures Datagrams(a + b) == Datagrams(a) + Datagrams(b)
    ensures RdyWrites(a + b) == RdyWrites(a) + RdyWrites(b)
  {
    if a != [] {
      assert (a + b)[0] == a[0];
      assert (a + b)[1..] == a[1..] + b;
      DatagramsAppend(a[1..], b);
    } else {
      assert a + b == b;
    }
  }

  lemma PhaseCounts(n: nat, d: seq<byte>)
    ensures Datagrams(Phase(n)) == [] && RdyWrites(Phase(n)) == 1
    ensures Datagrams([Send(d)]) == [d] && RdyWrites([Send(d)]) == 0
  {
    assert Phase(n)[1..] == [Recv(n)];
    assert [Recv(n)][1..] == [];
    assert [Send(d)][1..] == [];
  }

  /** An iteration that gets both transfers raises RDY before each receive,
      asks for 10 header bytes and then for the clamped length, and sends one
      datagram built from those two transfers. */
  lemma IterationForwards(headerBurst: seq<byte>, payloadBurst: seq<byte>, rest: seq<Transfer>)
    ensures var r := Iteration([Burst(headerBurst), Burst(payloadBurst)] + rest);
      var n := Clamp(DeclaredLen(Received(headerBurst, HDR_LEN)));
      && r.status == Running && r.rest == rest
      && r.events == [RdyHigh, Recv(HDR_LEN), RdyHigh, Recv(n), Send(Forwarded(headerBurst, payloadBurst))]
      && RdyWrites(r.events) == 2 && Datagrams(r.events) == [Forwarded(headerBurst, payloadBurst)]
  {
    var hdr := Received(headerBurst, HDR_LEN);
    var n := Clamp(DeclaredLen(hdr));
    var d := Forwarded(headerBurst, payloadBurst);
    var bus := [Burst(headerBurst), Burst(payloadBurst)] + rest;
    assert bus[1..] == [Burst(payloadBurst)] + rest;
    assert PayloadStep(hdr, bus[1..]) == Run(Phase(n) + [Send(d)], Running, rest);
    PhaseCounts(HDR_LEN, d);
    PhaseCounts(n, d);
    DatagramsAppend(Phase(HDR_LEN), Phase(n));
    DatagramsAppend(Phase(HDR_LEN) + Phase(n), [Send(d)]);
    assert Phase(HDR_LEN) + (Phase(n) + [Send(d)]) == (Phase(HDR_LEN) + Phase(n)) + [Send(d)];
  }

  /** A failed receive in either phase aborts before anything is sent; a
      receive with no transfer to take blocks; an iteration sends exactly one
      datagram when it completes and none otherwise. */
  lemma IterationStops(bus: seq<Transfer>)
    ensures var r := Iteration(bus);
      && (r.status == Aborted <==> (bus != [] && (bus[0].Fault? || (|bus| >= 2 && bus[0].Burst? && bus[1].Fault?))))
      && (r.status == Blocked <==> (bus == [] || (|bus| == 1 && bus[0].Burst?)))
      && (r.status != Running ==> Datagrams(r.events) == [] && 1 <= RdyWrites(r.events) <= 2)
      && (r.status == Running ==> |Datagrams(r.events)| == 1 && RdyWrites(r.events) == 2)
  {
    PhaseCounts(HDR_LEN, []);
    if bus != [] && bus[0].Burst? {
      var n := Clamp(DeclaredLen(Received(bus[0].bytes, HDR_LEN)));
      PhaseCounts(n, []);
      DatagramsAppend(Phase(HDR_LEN), Phase(n));
      if |bus| >= 2 && bus[1].Burst? {
        IterationForwards(bus[0].bytes, bus[1].bytes, bus[2..]);
        assert bus == [Burst(bus[0].bytes), Burst(bus[1].bytes)] + bus[2..];
      }
    }
  }

  /** The datagrams `k` complete iterations send when they consume the
      transfers `ws` two at a time. */
  function ForwardPairs(ws: seq<seq<byte>>, k: nat): (ds: seq<seq<byte>>)
    requires 2 * k <= |ws|
    ensures |ds| == k
  {
    if k == 0 then [] else [Forwarded(ws[0], ws[1])] + ForwardPairs(ws[2..], k - 1)
  }

  /** Datagram `i` is built from transfers `2i` and `2i+1` and from nothing
      else. */
  lemma {:induction false} ForwardPairsAt(ws: seq<seq<byte>>, k: nat, i: nat)
    requires 2 * k <= |ws| && i < k
    ensures ForwardPairs(ws, k)[i] == Forwarded(ws[2 * i], ws[2 * i + 1])
  {
    if i > 0 {
      ForwardPairsAt(ws[2..], k - 1, i - 1);
      assert ws[2..][2 * (i - 1)] == ws[2 * i] && ws[2..][2 * (i - 1) + 1] == ws[2 * i + 1];
    }
  }

  /** Iterations are strictly sequential: with no bus failure, `k`
      iterations consume exactly the first `2k` transfers, send one datagram
      per pair of transfers, in order, and raise RDY twice per iteration. */
  lemma {:induction false} LoopSequential(ws: seq<seq<byte>>, k: nat)
    requires 2 * k <= |ws|
    ensures var r := Loop(Bursts(ws), k);
      && r.status == Running && r.rest == Bursts(ws[2 * k..])
      && Datagrams(r.events) == ForwardPairs(ws, k)
      && RdyWrites(r.events) == 2 * k
  {
    if k > 0 {
      var bus := Bursts(ws);
      var rest := Bursts(ws[2..]);
      BurstsPair(ws);
      IterationForwards(ws[0], ws[1], rest);
      var it := Iteration(bus);
      LoopSequential(ws[2..], k - 1);
      var r := Loop(rest, k - 1);
      assert it == Run(it.events, Running, rest);
      assert Loop(bus, k) == Run(it.events + r.events, r.status, r.rest);
      DatagramsAppend(it.events, r.events);
      assert ForwardPairs(ws, k) == [Forwarded(ws[0], ws[1])] + ForwardPairs(ws[2..], k - 1);
      assert ws[2..][2 * (k - 1)..] == ws[2 * k..];
    }
  }

  /** A well-formed chunk (10-byte header whose declared length is within
      the buffer and matches the payload actually sent) crosses the bridge
      unchanged. */
  lemma ForwardedWellFormed(hdr: seq<byte>, payload: seq<byte>)
    requires |hdr| == HDR_LEN && DeclaredLen(hdr) == |payload| <= PAYLOAD_MAX
    ensures Forwarded(hdr, payload) == hdr + payload
  {
    assert Received(hdr, HDR_LEN) == hdr;
  }

  /** A declared length above the buffer's capacity makes the bridge take
      exactly 2048 payload bytes and send a 2058-byte datagram. */
  lemma ForwardedClamped(hdr: seq<byte>, payloadBurst: seq<byte>)
    requires |hdr| == HDR_LEN && DeclaredLen(hdr) > PAYLOAD_MAX
    ensures Forwarded(hdr, payloadBurst) == hdr + Received(payloadBurst, PAYLOAD_MAX)
    ensures |Forwarded(hdr, payloadBurst)| == OUT_LEN
  {
    assert Received(hdr, HDR_LEN) == hdr;
  }

  /** The state of `spi_udp_forward_loop`: its three buffers, the transfers
      still to come from the master, everything the loop has done so far and
      whether it is still running. */
  class ForwardLoop {
    const hdr: array<byte>
    const payload: array<byte>
    const out: array<byte>
    var bus: seq<Transfer>
    var trace: seq<Event>
    var status: Status

    ghost predicate Valid()
      reads this
    {
      hdr.Length == HDR_LEN && payload.Length == PAYLOAD_MAX && out.Length == OUT_LEN
    }

    constructor (bus: seq<Transfer>)
      ensures Valid() && fresh(hdr) && fresh(payload) && fresh(out)
      ensures this.bus == bus && trace == [] && status == Running
    {
      hdr := new byte[HDR_LEN];
      payload := new byte[PAYLOAD_MAX];
      out := new byte[OUT_LEN];
      this.bus := bus;
      trace := [];
      status := Running;
    }

    /** `set_rdy(1)`. */
    method SetRdy()
      modifies this
      ensures trace == old(trace) + [RdyHigh]
      ensures bus == old(bus) && status == old(status)
    {
      trace := trace + [RdyHigh];
    }

    /** `memset(a, 0, sizeof(a))`. */
    static method Zero(a: array<byte>)
      modifies a
      ensures a[..] == Zeros(a.Length)
    {
      for i := 0 to a.Length
        invariant forall j | 0 <= j < i :: a[j] == 0
      {
        a[i] := 0;
      }
    }

    /** `memcpy(dst + at, src, n)`. */
    static method Copy(src: array<byte>, dst: array<byte>, at: nat, n: nat)
      requires src != dst && n <= src.Length && at + n <= dst.Length
      modifies dst
      ensures dst[at..at + n] == src[..n]
      ensures dst[..at] == old(dst[..at]) && dst[at + n..] == old(dst[at + n..])
    {
      for i := 0 to n
        invariant forall j | 0 <= j < i :: dst[at + j] == src[j]
        invariant forall j | 0 <= j < dst.Length && !(at <= j < at + i) :: dst[j] == old(dst[j])
      {
        dst[at + i] := src[i];
      }
    }

    /** `ESP_ERROR_CHECK(spi_slave_transmit(...))` of `n` bytes into `buf`:
        the master's burst fills the buffer as far as it goes and no further
        than `n`; a driver error aborts; with no transfer left the call never
        returns. */
    method Transmit(buf: array<byte>, n: nat) returns (ok: bool)
      requires n <= buf.Length
      modifies this, buf
      ensures trace == old(trace) + [Recv(n)]
      ensures ok <==> old(bus) != [] && old(bus)[0].Burst?
      ensures status == if ok then old(status) else if old(bus) == [] then Blocked else Aborted
      ensures bus == if old(bus) == [] then [] else old(bus)[1..]
      ensures ok ==> forall i | 0 <= i < buf.Length ::
        buf[i] == if i < n && i < |old(bus)[0].bytes| then old(bus)[0].bytes[i] else old(buf[i])
    {
      trace := trace + [Recv(n)];
      if bus == [] {
        status := Blocked;
        return false;
      }
      var t := bus[0];
      bus := bus[1..];
      if t.Fault? {
        status := Aborted;
        return false;
      }
      var m := Min(n, |t.bytes|);
      for i := 0 to m
        modifies buf
        invariant forall j | 0 <= j < buf.Length :: buf[j] == if j < i then t.bytes[j] else old(buf[j])
      {
        buf[i] := t.bytes[i];
      }
      ok := true;
    }

    /** `sendto(udp_sock, out, len, ...)`. */
    method SendTo(len: nat)
      requires len <= out.Length
      modifies this
      ensures trace == old(trace) + [Send(out[..len])]
      ensures bus == old(bus) && status == old(status)
    {
      trace := trace + [Send(out[..len])];
    }

    /** One receive phase of the loop body: `set_rdy(1)`, `memset` the
        buffer, receive `n` bytes into it. */
    method ReceivePhase(buf: array<byte>, n: nat) returns (ok: bool)
      requires n <= buf.Length
      modifies this, buf
      ensures trace == old(trace) + Phase(n)
      ensures ok <==> old(bus) != [] && old(bus)[0].Burst?
      ensures status == if ok then old(status) else if old(bus) == [] then Blocked else Aborted
      ensures bus == if old(bus) == [] then [] else old(bus)[1..]
      ensures ok ==> buf[..n] == Received(old(bus)[0].bytes, n)
    {
      SetRdy();
      Zero(buf);
      ok := Transmit(buf, n);
      if ok {
        forall i | 0 <= i < n
          ensures buf[i] == Received(old(bus)[0].bytes, n)[i]
        {
          ReceivedAt(old(bus)[0].bytes, n, i);
        }
      }
    }

    /** One pass of the loop body; whatever the buffers held before, the
        outcome depends only on the transfers it consumes. */
    method Iterate()
      requires Valid() && status == Running
      modifies this, hdr, payload, out
      ensures Valid()
      ensures var r := Iteration(old(bus));
        trace == old(trace) + r.events && status == r.status && bus == r.rest
    {
      ghost var bus0 := bus;
      var ok := ReceivePhase(hdr, HDR_LEN);
      if ok {
        ghost var header := hdr[..];
        assert header == hdr[..HDR_LEN];
        ForwardPayload();
        ghost var p := PayloadStep(header, bus0[1..]);
        assert trace == old(trace) + (Phase(HDR_LEN) + p.events);
      }
    }

    /** The payload phase and the datagram, once the header is in `hdr`. */
    method ForwardPayload()
      requires Valid() && status == Running
      modifies this, payload, out
      ensures var r := PayloadStep(old(hdr[..]), old(bus));
        trace == old(trace) + r.events && status == r.status && bus == r.rest
    {
      // The bytes of `hdr[8] | hdr[9] << 8` do not overlap, so the or is a sum.
      var len := hdr[8] as int + 0x100 * hdr[9] as int;
      if len > PAYLOAD_MAX {
        len := PAYLOAD_MAX;
      }
      var ok := ReceivePhase(payload, len);
      if ok {
        Emit(len);
      }
    }

    /** Copy header and payload into `out` and send its first
        `HDR_LEN + len` bytes. */
    method Emit(len: nat)
      requires Valid() && len <= PAYLOAD_MAX
      modifies this, out
      ensures trace == old(trace) + [Send(hdr[..] + payload[..len])]
      ensures bus == old(bus) && status == old(status)
    {
      Copy(hdr, out, 0, HDR_LEN);
      assert out[..HDR_LEN] == hdr[..];
      Copy(payload, out, HDR_LEN, len);
      assert out[..HDR_LEN + len] == hdr[..] + payload[..len] by {
        assert out[..HDR_LEN + len] == out[..HDR_LEN] + out[HDR_LEN..HDR_LEN + len];
      }
      SendTo(HDR_LEN + len);
    }

    /** One more turn of the loop, seen as extending a run of `i` turns from `bus0`. */
    method Step(ghost bus0: seq<Transfer>, ghost i: nat, ghost done: seq<Event>) returns (ghost added: seq<Event>)
      requires Valid() && status == Running && Loop(bus0, i) == Run(done, status, bus)
      modifies this, hdr, payload, out
      ensures Valid()
      ensures trace == old(trace) + added
      ensures Loop(bus0, i + 1) == Run(done + added, status, bus)
    {
      ghost var it := Iteration(bus);
      LoopSnoc(bus0, i);
      Iterate();
      added := it.events;
    }

    /** `while (1)`, cut off after at most `k` turns or when a receive
        aborts or blocks. */
    method RunFor(k: nat)
      requires Valid() && status == Running
      modifies this, hdr, payload, out
      ensures Valid()
      ensures var r := Loop(old(bus), k);
        trace == old(trace) + r.events && status == r.status && bus == r.rest
    {
      var i := 0;
      ghost var done := [];
      while i < k && status == Running
        invariant Valid() && i <= k
        invariant trace == old(trace) + done
        invariant Loop(old(bus), i) == Run(done, status, bus)
      {
        ghost var added := Step(old(bus), i, done);
        done := done + added;
        i := i + 1;
      }
      LoopStopped(old(bus), i, k);
    }
  }
}
