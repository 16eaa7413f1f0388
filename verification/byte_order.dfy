/**
  Byte-order codec of MeshConv.cpp: the two swap routines, and the memory
  layout of 16-bit integers and 32-bit floats on a host of either byte order.

  A float is never interpreted: it is an opaque 32-bit pattern given by its
  four bytes in order of significance, so NaN and infinity patterns are
  ordinary values here.
*/
module ByteOrder {

  type u8 = x: nat | x < 0x100
  type u16 = x: nat | x < 0x1_0000

  /** Byte order of a host's memory. */
  datatype Endian = Little | Big

  /** The byte order every multi-byte value has in the mesh file. */
  const Canonical: Endian := Big

  /**
    The converter is built for a little-endian host (a Windows build of the
    importer); this is an assumption of the model, not something the code checks.
  */
  const WriterHost: Endian := Little

  /** The bit pattern of a 32-bit float, most significant byte first. */
  datatype F32 = F32(b3: u8, b2: u8, b1: u8, b0: u8)

  /** The two bytes a u16 occupies in memory on a host with byte order `e`. */
  function StoreU16(e: Endian, x: u16): (r: seq<u8>)
    ensures |r| == 2
  {
    if e == Little then [x % 0x100, x / 0x100] else [x / 0x100, x % 0x100]
  }

  /** The u16 a host with byte order `e` sees in two bytes of memory. */
  function LoadU16(e: Endian, b: seq<u8>): (x: u16)
    requires |b| == 2
    ensures StoreU16(e, x) == b
  {
    var hi: nat := if e == Little then b[1] else b[0];
    var lo: nat := if e == Little then b[0] else b[1];
    hi * 0x100 + lo
  }

  /** The four bytes a float occupies in memory on a host with byte order `e`. */
  function StoreF32(e: Endian, f: F32): (r: seq<u8>)
    ensures |r| == 4
  {
    if e == Little then [f.b0, f.b1, f.b2, f.b3] else [f.b3, f.b2, f.b1, f.b0]
  }

  /** The float a host with byte order `e` sees in four bytes of memory. */
  function LoadF32(e: Endian, b: seq<u8>): (f: F32)
    requires |b| == 4
    ensures StoreF32(e, f) == b
  {
    if e == Little then F32(b[3], b[2], b[1], b[0]) else F32(b[0], b[1], b[2], b[3])
  }

  function Reverse2(b: seq<u8>): seq<u8>
    requires |b| == 2
  {
    [b[1], b[0]]
  }

  function Reverse4(b: seq<u8>): seq<u8>
    requires |b| == 4
  {
    [b[3], b[2], b[1], b[0]]
  }

  /**
    swap_u16 (MeshConv.cpp:30-40): copies the two bytes of the argument's
    memory into the result's memory in the opposite order, on any host.
  */
  function SwapU16(i: u16): (r: u16)
    ensures StoreU16(Little, r) == Reverse2(StoreU16(Little, i))
    ensures StoreU16(Big, r) == Reverse2(StoreU16(Big, i))
  {
    (i % 0x100) * 0x100 + i / 0x100
  }

  /**
    swap_f32 (MeshConv.cpp:16-28): result memory byte k is argument memory
    byte 3 - k, on any host.
  */
  function SwapF32(f: F32): (r: F32)
    ensures StoreF32(Little, r) == Reverse4(StoreF32(Little, f))
    ensures StoreF32(Big, r) == Reverse4(StoreF32(Big, f))
  {
    F32(f.b0, f.b1, f.b2, f.b3)
  }

  lemma LoadStoreU16(e: Endian, x: u16)
    ensures LoadU16(e, StoreU16(e, x)) == x
  {
  }

  lemma LoadStoreF32(e: Endian, f: F32)
    ensures LoadF32(e, StoreF32(e, f)) == f
  {
  }

  /** Swapping a u16 twice gives it back, for all 65536 values. */
  lemma SwapU16Involution(i: u16)
    ensures SwapU16(SwapU16(i)) == i
  {
  }

  /** Swapping a float twice gives back the same bit pattern, NaNs included. */
  lemma SwapF32Involution(f: F32)
    ensures SwapF32(SwapF32(f)) == f
  {
  }

  /** A u16 as the converter writes it: swapped, then stored by the writer host. */
  function PutU16(x: u16): (r: seq<u8>)
    ensures r == StoreU16(Canonical, x)
  {
    StoreU16(WriterHost, SwapU16(x))
  }

  /** A float as the converter writes it: swapped, then stored by the writer host. */
  function PutF32(f: F32): (r: seq<u8>)
    ensures r == StoreF32(Canonical, f)
  {
    StoreF32(WriterHost, SwapF32(f))
  }

  /** The bytes of a sequence of u16 values, each written as PutU16 does. */
  function PutU16s(xs: seq<u16>): (r: seq<u8>)
    ensures |r| == 2 * |xs|
  {
    if xs == [] then [] else PutU16(xs[0]) + PutU16s(xs[1..])
  }

  /**
    A host of the opposite byte order that loads canonical bytes without
    swapping sees every u16 swapped; one of the same order sees the value.
  */
  lemma LoadCanonicalU16(x: u16)
    ensures LoadU16(Big, StoreU16(Canonical, x)) == x
    ensures LoadU16(Little, StoreU16(Canonical, x)) == SwapU16(x)
  {
  }

  lemma LoadCanonicalF32(f: F32)
    ensures LoadF32(Big, StoreF32(Canonical, f)) == f
    ensures LoadF32(Little, StoreF32(Canonical, f)) == SwapF32(f)
  {
  }
}
