/** The 10-byte chunk header shared by the camera, the bridge and the PC server:
    `<IHBBH`, little-endian: frame_id (u32), chunk_id (u16), flags (u8),
    rsv (u8), payload_len (u16). */
module Wire {

  type byte = x: int | 0 <= x < 0x100

  datatype Option<T> = None | Some(value: T)

  const HDR_LEN: nat := 10
  const FLAG_START: byte := 1
  const FLAG_END: byte := 2

  function Min(a: int, b: int): int { if a <= b then a else b }

  datatype Header = Header(frameId: nat, chunkId: nat, flags: nat, rsv: nat, payloadLen: nat)
  {
    /** Every field fits its width on the wire. */
    predicate Valid() {
      frameId < 0x1_0000_0000 && chunkId < 0x1_0000 && flags < 0x100 && rsv < 0x100 && payloadLen < 0x1_0000
    }
  }

  /** `flags & FLAG_START`, the test the PC server makes. */
  predicate HasStart(flags: byte) {
    flags % 2 == 1
  }

  /** `flags & FLAG_END`. */
  predicate HasEnd(flags: byte) {
    flags / 2 % 2 == 1
  }

  /** The two tests are the bitwise ands the server evaluates. */
  lemma FlagBits(flags: byte)
    ensures HasStart(flags) <==> (flags as bv8) & (FLAG_START as bv8) != 0
    ensures HasEnd(flags) <==> (flags as bv8) & (FLAG_END as bv8) != 0
  {
  }

  /** `a | b` on bytes, as the camera sets flag bits. */
  function Or(a: byte, b: byte): byte
  {
    ((a as bv8) | (b as bv8)) as int
  }

  /** Setting the flag bits into a cleared byte. */
  lemma OrFlags()
    ensures Or(0, FLAG_START) == FLAG_START && Or(0, FLAG_END) == FLAG_END
    ensures Or(FLAG_START, FLAG_END) == FLAG_START + FLAG_END
  {
  }

  /** Concatenation is associative; stated once so that proofs about logs
      that grow at the end need not rediscover it element by element. */
  lemma AppendAssoc<T>(a: seq<T>, b: seq<T>, c: seq<T>)
    ensures a + (b + c) == (a + b) + c
  {
  }

  /** All byte strings of `ps`, one after another. */
  function Concat(ps: seq<seq<byte>>): (s: seq<byte>)
  {
    if ps == [] then [] else Concat(ps[..|ps| - 1]) + ps[|ps| - 1]
  }

  /** Little-endian value of a byte string. */
  function LittleEndian(b: seq<byte>): (v: nat)
    ensures v < Pow256(|b|)
  {
    if b == [] then 0 else b[0] + 0x100 * LittleEndian(b[1..])
  }

  function Pow256(n: nat): (p: nat)
    ensures p >= 1
  {
    if n == 0 then 1 else 0x100 * Pow256(n - 1)
  }

  /** The `n` low-order bytes of `v`, least significant first. */
  function ToLittleEndian(v: nat, n: nat): (b: seq<byte>)
    ensures |b| == n
  {
    if n == 0 then [] else [v % 0x100] + ToLittleEndian(v / 0x100, n - 1)
  }

  lemma {:induction false} LittleEndianRoundTrip(v: nat, n: nat)
    requires v < Pow256(n)
    ensures LittleEndian(ToLittleEndian(v, n)) == v
  {
    if n > 0 {
      var b := ToLittleEndian(v, n);
      assert b[1..] == ToLittleEndian(v / 0x100, n - 1);
      LittleEndianRoundTrip(v / 0x100, n - 1);
    }
  }

  lemma {:induction false} ToLittleEndianRoundTrip(b: seq<byte>)
    ensures ToLittleEndian(LittleEndian(b), |b|) == b
  {
    if b != [] {
      var v := LittleEndian(b);
      assert v % 0x100 == b[0] && v / 0x100 == LittleEndian(b[1..]);
      ToLittleEndianRoundTrip(b[1..]);
    }
  }

  /** `ustruct.pack("<IHBBH", ...)` of a header whose fields fit their widths. */
  function Pack(h: Header): (b: seq<byte>)
    requires h.Valid()
    ensures |b| == HDR_LEN
  {
    ToLittleEndian(h.frameId, 4) + ToLittleEndian(h.chunkId, 2) + [h.flags, h.rsv] + ToLittleEndian(h.payloadLen, 2)
  }

  /** The little-endian 16-bit field at offset `at`. */
  function U16(b: seq<byte>, at: nat): (v: nat)
    requires at + 2 <= |b|
    ensures v < 0x1_0000
  {
    b[at] as int + 0x100 * b[at + 1] as int
  }

  /** The little-endian 32-bit field at offset `at`. */
  function U32(b: seq<byte>, at: nat): (v: nat)
    requires at + 4 <= |b|
    ensures v < 0x1_0000_0000
  {
    U16(b, at) + 0x1_0000 * U16(b, at + 2)
  }

  /** The fixed-width fields are the general little-endian values of their
      bytes. */
  lemma FieldsLittleEndian(b: seq<byte>)
    requires |b| >= HDR_LEN
    ensures LittleEndian(b[0..4]) == U32(b, 0)
    ensures LittleEndian(b[4..6]) == U16(b, 4)
    ensures LittleEndian(b[8..10]) == U16(b, 8)
  {
    var f := b[0..4];
    assert f[1..][1..][1..][1..] == [];
    assert LittleEndian(f[1..][1..][1..]) == b[3];
    assert LittleEndian(f[1..][1..]) == U16(b, 2);
    assert LittleEndian(f[1..]) == b[1] + 0x100 * U16(b, 2);
    var c := b[4..6];
    assert c[1..][1..] == [];
    var p := b[8..10];
    assert p[1..][1..] == [];
  }

  /** `struct.unpack_from("<I H B B H", data, 0)`: the first ten bytes of `b`. */
  function Unpack(b: seq<byte>): (h: Header)
    requires |b| >= HDR_LEN
    ensures h.Valid()
  {
    Header(U32(b, 0), U16(b, 4), b[6], b[7], U16(b, 8))
  }

  /** Only the first ten bytes are decoded: what follows them does not
      matter. */
  lemma UnpackAppend(b: seq<byte>, rest: seq<byte>)
    requires |b| >= HDR_LEN
    ensures Unpack(b + rest) == Unpack(b)
  {
    var d := b + rest;
    assert d[0] == b[0] && d[1] == b[1] && d[2] == b[2] && d[3] == b[3] && d[4] == b[4];
    assert d[5] == b[5] && d[6] == b[6] && d[7] == b[7] && d[8] == b[8] && d[9] == b[9];
  }

  /** Unpacking a packed header gives the header back. */
  lemma UnpackPack(h: Header)
    requires h.Valid()
    ensures Unpack(Pack(h)) == h
  {
    var b := Pack(h);
    assert b[0..4] == ToLittleEndian(h.frameId, 4);
    assert b[4..6] == ToLittleEndian(h.chunkId, 2);
    assert b[8..10] == ToLittleEndian(h.payloadLen, 2);
    LittleEndianRoundTrip(h.frameId, 4);
    LittleEndianRoundTrip(h.chunkId, 2);
    LittleEndianRoundTrip(h.payloadLen, 2);
    FieldsLittleEndian(b);
  }

  /** Packing the unpacked first ten bytes reproduces them. */
  lemma PackUnpack(b: seq<byte>)
    requires |b| >= HDR_LEN
    ensures Pack(Unpack(b)) == b[..HDR_LEN]
  {
    FieldsLittleEndian(b);
    ToLittleEndianRoundTrip(b[0..4]);
    ToLittleEndianRoundTrip(b[4..6]);
    ToLittleEndianRoundTrip(b[8..10]);
    assert b[..HDR_LEN] == b[0..4] + b[4..6] + [b[6], b[7]] + b[8..10];
  }
}
