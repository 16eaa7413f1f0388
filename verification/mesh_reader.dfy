/**
  The mesh reader of MeshReader.cpp as written. It loads every value in the
  host's own byte order, never swapping; the host is a parameter. A short
  read, which leaves the source's buffers indeterminate, is reported as a
  truncation of the block being read.
*/
module MeshReader {
  import opened Wrappers
  import opened ByteOrder
  import opened MeshTypes

  datatype Block = HeaderBlock | NameBlock | PositionBlock | NormalBlock
                 | TexCoordBlock | IndexBlock | SubMeshBlock | MaterialBlock

  datatype ReadError = Truncated(block: Block)

  /** header_t (MeshReader.cpp:20-24): three u16 fields, six bytes. */
  datatype Header = Header(nVertices: u16, nFaces: u16, nSubMeshes: u16)

  /** Float j of a raw block, as the host sees it. */
  function FloatAt(host: Endian, data: seq<u8>, j: nat): F32
    requires 4 * j + 4 <= |data|
  {
    LoadF32(host, data[4 * j .. 4 * j + 4])
  }

  /** u16 j of a raw block, as the host sees it. */
  function U16At(host: Endian, data: seq<u8>, j: nat): u16
    requires 2 * j + 2 <= |data|
  {
    LoadU16(host, data[2 * j .. 2 * j + 2])
  }

  /**
    Reads exactly n bytes (one inFile.read); fails with the given block when
    fewer remain.
  */
  function ReadBytes(b: seq<u8>, n: nat, block: Block): (r: Result<(seq<u8>, seq<u8>), ReadError>)
    ensures r.Success? <==> n <= |b|
    ensures r.Success? ==> r.value.0 == b[..n] && r.value.1 == b[n..]
    ensures r.Failure? ==> r.error == Truncated(block)
  {
    if |b| < n then Failure(Truncated(block)) else Success((b[..n], b[n..]))
  }

  /** The header read (MeshReader.cpp:66-67): six bytes, three fields, no swap. */
  function ReadHeader(host: Endian, b: seq<u8>): (r: Result<(Header, seq<u8>), ReadError>)
    ensures r.Success? <==> 6 <= |b|
    ensures r.Success? ==> r.value.1 == b[6..]
    ensures r.Success? ==> r.value.0 == Header(U16At(host, b, 0), U16At(host, b, 1), U16At(host, b, 2))
  {
    var (data, rest) :- ReadBytes(b, 6, HeaderBlock);
    Success((Header(U16At(host, data, 0), U16At(host, data, 1), U16At(host, data, 2)), rest))
  }

  /** The grouping loop of readVec3f (MeshReader.cpp:31-39) over a block read whole. */
  function Vec3sOf(host: Endian, data: seq<u8>): (r: seq<Vec3>)
    requires |data| % 12 == 0
    ensures |r| == |data| / 12
  {
    if data == [] then []
    else
      [Vec3(FloatAt(host, data, 0), FloatAt(host, data, 1), FloatAt(host, data, 2))]
        + Vec3sOf(host, data[12..])
  }

  /** The grouping loop of readVec2f (MeshReader.cpp:49-56). */
  function Vec2sOf(host: Endian, data: seq<u8>): (r: seq<Vec2>)
    requires |data| % 8 == 0
    ensures |r| == |data| / 8
  {
    if data == [] then []
    else [Vec2(FloatAt(host, data, 0), FloatAt(host, data, 1))] + Vec2sOf(host, data[8..])
  }

  /** A raw block of u16 values, loaded one by one (MeshReader.cpp:95-97). */
  function U16sOf(host: Endian, data: seq<u8>): (r: seq<u16>)
    requires |data| % 2 == 0
    ensures |r| == |data| / 2
  {
    if data == [] then [] else [U16At(host, data, 0)] + U16sOf(host, data[2..])
  }

  /** The pairing loop of the sub-mesh read (MeshReader.cpp:110-115). */
  function SubMeshesOf(host: Endian, data: seq<u8>): (r: seq<SubMesh>)
    requires |data| % 4 == 0
    ensures |r| == |data| / 4
  {
    if data == [] then []
    else
      var s: SubMesh := SubMesh(0, 0);
      [s.Set(U16At(host, data, 0), U16At(host, data, 1))] + SubMeshesOf(host, data[4..])
  }

  lemma DropSlice(data: seq<u8>, d: nat, a: nat, len: nat)
    requires d + a + len <= |data|
    ensures data[d..][a .. a + len] == data[d + a .. d + a + len]
  {
  }

  /** Removing the first of at least k + 1 blocks of width w leaves at least k blocks. */
  lemma BlockDrop(len: nat, w: nat, k: nat)
    requires (w == 12 || w == 8) && len % w == 0 && 0 < k < len / w
    ensures w <= len && (len - w) % w == 0 && k - 1 < (len - w) / w
  {
    var q := len / w;
    assert len == w * q;
    assert q >= 1;
    var m: nat := q - 1;
    assert len - w == w * m;
    assert (w * m) % w == 0 && (w * m) / w == m by {
      if w == 12 {
        assert (12 * m) % 12 == 0 && (12 * m) / 12 == m;
      } else {
        assert (8 * m) % 8 == 0 && (8 * m) / 8 == m;
      }
    }
  }

  /** Dropping n floats from the front shifts every float index down by n. */
  lemma FloatAtDrop(host: Endian, data: seq<u8>, n: nat, j: nat)
    requires 4 * (n + j) + 4 <= |data|
    ensures FloatAt(host, data[4 * n..], j) == FloatAt(host, data, n + j)
  {
    DropSlice(data, 4 * n, 4 * j, 4);
  }

  /** Vector k of readVec3f's output is floats 3k, 3k+1, 3k+2 of the block. */
  lemma {:induction false} Vec3sOfElement(host: Endian, data: seq<u8>, k: nat)
    requires |data| % 12 == 0 && k < |data| / 12
    ensures 12 * k + 12 <= |data|
    ensures Vec3sOf(host, data)[k]
      == Vec3(FloatAt(host, data, 3 * k), FloatAt(host, data, 3 * k + 1), FloatAt(host, data, 3 * k + 2))
  {
    if k > 0 {
      var rest := data[12..];
      BlockDrop(|data|, 12, k);
      Vec3sOfElement(host, rest, k - 1);
      FloatAtDrop(host, data, 3, 3 * (k - 1));
      FloatAtDrop(host, data, 3, 3 * (k - 1) + 1);
      FloatAtDrop(host, data, 3, 3 * (k - 1) + 2);
    }
  }

  /** Vector k of readVec2f's output is floats 2k, 2k+1 of the block. */
  lemma {:induction false} Vec2sOfElement(host: Endian, data: seq<u8>, k: nat)
    requires |data| % 8 == 0 && k < |data| / 8
    ensures 8 * k + 8 <= |data|
    ensures Vec2sOf(host, data)[k] == Vec2(FloatAt(host, data, 2 * k), FloatAt(host, data, 2 * k + 1))
  {
    if k > 0 {
      var rest := data[8..];
      BlockDrop(|data|, 8, k);
      Vec2sOfElement(host, rest, k - 1);
      FloatAtDrop(host, data, 2, 2 * (k - 1));
      FloatAtDrop(host, data, 2, 2 * (k - 1) + 1);
    }
  }

  /** Sub-mesh k is the pair of u16 values 2k, 2k+1 of the block. */
  lemma {:induction false} SubMeshesOfElement(host: Endian, data: seq<u8>, k: nat)
    requires |data| % 4 == 0 && k < |data| / 4
    ensures 4 * k + 4 <= |data|
    ensures SubMeshesOf(host, data)[k] == SubMesh(U16At(host, data, 2 * k), U16At(host, data, 2 * k + 1))
  {
    if k > 0 {
      SubMeshesOfElement(host, data[4..], k - 1);
      DropSlice(data, 4, 2 * (2 * (k - 1)), 2);
      DropSlice(data, 4, 2 * (2 * (k - 1) + 1), 2);
    }
  }

  /**
    readVec3f (MeshReader.cpp:26-42): consumes 4 * nElements bytes and
    yields nElements / 3 vectors.
  */
  function ReadVec3f(host: Endian, b: seq<u8>, nElements: nat, block: Block): (r: Result<(seq<Vec3>, seq<u8>), ReadError>)
    requires nElements % 3 == 0
    ensures r.Success? <==> 4 * nElements <= |b|
    ensures r.Failure? ==> r.error == Truncated(block)
    ensures r.Success? ==> |r.value.0| == nElements / 3 && r.value.1 == b[4 * nElements ..]
    ensures r.Success? ==> r.value.0 == Vec3sOf(host, b[..4 * nElements])
  {
    var (data, rest) :- ReadBytes(b, 4 * nElements, block);
    Success((Vec3sOf(host, data), rest))
  }

  /**
    readVec2f (MeshReader.cpp:44-59): consumes 4 * nElements bytes and
    yields nElements / 2 vectors.
  */
  function ReadVec2f(host: Endian, b: seq<u8>, nElements: nat, block: Block): (r: Result<(seq<Vec2>, seq<u8>), ReadError>)
    requires nElements % 2 == 0
    ensures r.Success? <==> 4 * nElements <= |b|
    ensures r.Failure? ==> r.error == Truncated(block)
    ensures r.Success? ==> |r.value.0| == nElements / 2 && r.value.1 == b[4 * nElements ..]
    ensures r.Success? ==> r.value.0 == Vec2sOf(host, b[..4 * nElements])
  {
    var (data, rest) :- ReadBytes(b, 4 * nElements, block);
    Success((Vec2sOf(host, data), rest))
  }

  /** The index read (MeshReader.cpp:95-97): n u16 values, 2n bytes. */
  function ReadU16s(host: Endian, b: seq<u8>, n: nat, block: Block): (r: Result<(seq<u16>, seq<u8>), ReadError>)
    ensures r.Success? <==> 2 * n <= |b|
    ensures r.Failure? ==> r.error == Truncated(block)
    ensures r.Success? ==> |r.value.0| == n && r.value.1 == b[2 * n ..]
    ensures r.Success? ==> r.value.0 == U16sOf(host, b[..2 * n])
  {
    var (data, rest) :- ReadBytes(b, 2 * n, block);
    Success((U16sOf(host, data), rest))
  }

  /** The sub-mesh read (MeshReader.cpp:104-115): nElements u16 values paired up. */
  function ReadSubMeshes(host: Endian, b: seq<u8>, nElements: nat, block: Block): (r: Result<(seq<SubMesh>, seq<u8>), ReadError>)
    requires nElements % 2 == 0
    ensures r.Success? <==> 2 * nElements <= |b|
    ensures r.Failure? ==> r.error == Truncated(block)
    ensures r.Success? ==> |r.value.0| == nElements / 2 && r.value.1 == b[2 * nElements ..]
    ensures r.Success? ==> r.value.0 == SubMeshesOf(host, b[..2 * nElements])
  {
    var (data, rest) :- ReadBytes(b, 2 * nElements, block);
    Success((SubMeshesOf(host, data), rest))
  }

  /** The number of bytes mesh_read consumes after a header of these counts. */
  function BodySize(h: Header): nat {
    12 * h.nVertices + 12 * h.nVertices + 8 * h.nVertices + 6 * h.nFaces + 4 * h.nSubMeshes
  }

  lemma MultipleMod(n: nat)
    ensures (3 * n) % 3 == 0 && (2 * n) % 2 == 0 && 4 * (3 * n) == 12 * n && 4 * (2 * n) == 8 * n
  {
  }

  /** Whole multiples of a block width split evenly into blocks. */
  lemma Multiples(k: nat)
    ensures (12 * k) % 12 == 0 && (8 * k) % 8 == 0 && (4 * k) % 4 == 0 && (2 * k) % 2 == 0
  {
    MultipleOf(12, k);
    MultipleOf(8, k);
    MultipleOf(4, k);
    MultipleOf(2, k);
  }

  lemma {:induction false} MultipleOf(w: nat, k: nat)
    requires w == 12 || w == 8 || w == 4 || w == 2
    ensures (w * k) % w == 0
  {
    if k > 0 {
      MultipleOf(w, k - 1);
      assert w * k == w * (k - 1) + w;
    }
  }

  /** The arrays mesh_read allocates and fills, in file order. */
  datatype Arrays = Arrays(vertices: seq<Vec3>, normals: seq<Vec3>, texcoord: seq<Vec2>,
                           indices: seq<u16>, subMeshes: seq<SubMesh>)

  /**
    Where each array comes from in the bytes after the header: positions
    are bytes [0, 12V), normals [12V, 24V), texture coordinates [24V, 32V),
    indices [32V, 32V + 6F) and sub-meshes the 4S bytes after that.
  */
  predicate Sliced(host: Endian, h: Header, body: seq<u8>, a: Arrays)
    requires BodySize(h) <= |body|
  {
    var V: nat, F: nat := h.nVertices, h.nFaces;
    Multiples(V); Multiples(3 * F); Multiples(h.nSubMeshes);
    && a.vertices == Vec3sOf(host, body[..12 * V])
    && a.normals == Vec3sOf(host, body[12 * V .. 24 * V])
    && a.texcoord == Vec2sOf(host, body[24 * V .. 32 * V])
    && a.indices == U16sOf(host, body[32 * V .. 32 * V + 6 * F])
    && a.subMeshes == SubMeshesOf(host, body[32 * V + 6 * F .. BodySize(h)])
  }

  /**
    The block reads of mesh_read (MeshReader.cpp:79-108): positions (3V
    floats), normals (3V), texture coordinates (2V, one per vertex), indices
    (3F u16) and sub-meshes (2S u16), every array sized from the header.
  */
  function ReadArrays(host: Endian, h: Header, b: seq<u8>): (r: Result<Arrays, ReadError>)
    ensures r.Success? <==> BodySize(h) <= |b|
    ensures r.Success? ==>
      && |r.value.vertices| == h.nVertices && |r.value.normals| == h.nVertices
      && |r.value.texcoord| == h.nVertices && |r.value.indices| == 3 * h.nFaces
      && |r.value.subMeshes| == h.nSubMeshes
  {
    var nV := h.nVertices;
    MultipleMod(nV);
    var (vertices, b2) :- ReadVec3f(host, b, 3 * nV, PositionBlock);
    var (normals, b3) :- ReadVec3f(host, b2, 3 * nV, NormalBlock);
    var (texcoord, b4) :- ReadVec2f(host, b3, 2 * nV, TexCoordBlock);
    var (indices, b5) :- ReadU16s(host, b4, 3 * h.nFaces, IndexBlock);
    var (subMeshes, _) :- ReadSubMeshes(host, b5, 2 * h.nSubMeshes, SubMeshBlock);
    Success(Arrays(vertices, normals, texcoord, indices, subMeshes))
  }

  /** Each array ReadArrays returns is its own slice of the body, grouped. */
  lemma {:induction false} ReadArraysSliced(host: Endian, h: Header, b: seq<u8>)
    requires BodySize(h) <= |b|
    ensures ReadArrays(host, h, b).Success? && Sliced(host, h, b, ReadArrays(host, h, b).value)
  {
    PositionsAt(host, h, b);
    NormalsAt(host, h, b);
    TexCoordsAt(host, h, b);
    IndicesAt(host, h, b);
    SubMeshesAt(host, h, b);
    ReadChain(host, h, b);
  }

  /**
    ReadArrays is its five reads run one after the other, each on what the
    last left, when each leaves the rest of the body after its own block.
  */
  lemma ReadChain(host: Endian, h: Header, b: seq<u8>)
    requires BodySize(h) <= |b|
    requires (3 * h.nVertices) % 3 == 0 && (2 * h.nVertices) % 2 == 0 && (2 * h.nSubMeshes) % 2 == 0
    requires ReadVec3f(host, b, 3 * h.nVertices, PositionBlock).Success?
    requires ReadVec3f(host, b, 3 * h.nVertices, PositionBlock).value.1 == b[12 * h.nVertices ..]
    requires ReadVec3f(host, b[12 * h.nVertices ..], 3 * h.nVertices, NormalBlock).Success?
    requires ReadVec3f(host, b[12 * h.nVertices ..], 3 * h.nVertices, NormalBlock).value.1 == b[24 * h.nVertices ..]
    requires ReadVec2f(host, b[24 * h.nVertices ..], 2 * h.nVertices, TexCoordBlock).Success?
    requires ReadVec2f(host, b[24 * h.nVertices ..], 2 * h.nVertices, TexCoordBlock).value.1 == b[32 * h.nVertices ..]
    requires ReadU16s(host, b[32 * h.nVertices ..], 3 * h.nFaces, IndexBlock).Success?
    requires ReadU16s(host, b[32 * h.nVertices ..], 3 * h.nFaces, IndexBlock).value.1
          == b[32 * h.nVertices + 6 * h.nFaces ..]
    requires ReadSubMeshes(host, b[32 * h.nVertices + 6 * h.nFaces ..], 2 * h.nSubMeshes, SubMeshBlock).Success?
    ensures ReadArrays(host, h, b) == Success(Arrays(
      ReadVec3f(host, b, 3 * h.nVertices, PositionBlock).value.0,
      ReadVec3f(host, b[12 * h.nVertices ..], 3 * h.nVertices, NormalBlock).value.0,
      ReadVec2f(host, b[24 * h.nVertices ..], 2 * h.nVertices, TexCoordBlock).value.0,
      ReadU16s(host, b[32 * h.nVertices ..], 3 * h.nFaces, IndexBlock).value.0,
      ReadSubMeshes(host, b[32 * h.nVertices + 6 * h.nFaces ..], 2 * h.nSubMeshes, SubMeshBlock).value.0))
  {
  }

  /* One read of the chain each: the block that starts at its offset in the body. */

  lemma PositionsAt(host: Endian, h: Header, b: seq<u8>)
    requires BodySize(h) <= |b|
    ensures (3 * h.nVertices) % 3 == 0 && (12 * h.nVertices) % 12 == 0
    ensures ReadVec3f(host, b, 3 * h.nVertices, PositionBlock)
         == Success((Vec3sOf(host, b[..12 * h.nVertices]), b[12 * h.nVertices ..]))
  {
    Multiples(h.nVertices);
  }

  lemma NormalsAt(host: Endian, h: Header, b: seq<u8>)
    requires BodySize(h) <= |b|
    ensures (3 * h.nVertices) % 3 == 0 && (12 * h.nVertices) % 12 == 0
    ensures ReadVec3f(host, b[12 * h.nVertices ..], 3 * h.nVertices, NormalBlock)
         == Success((Vec3sOf(host, b[12 * h.nVertices .. 24 * h.nVertices]), b[24 * h.nVertices ..]))
  {
    var V: nat := h.nVertices;
    Multiples(V);
    assert b[12 * V ..][..12 * V] == b[12 * V .. 24 * V];
    assert b[12 * V ..][12 * V ..] == b[24 * V ..];
  }

  lemma TexCoordsAt(host: Endian, h: Header, b: seq<u8>)
    requires BodySize(h) <= |b|
    ensures (2 * h.nVertices) % 2 == 0 && (8 * h.nVertices) % 8 == 0
    ensures ReadVec2f(host, b[24 * h.nVertices ..], 2 * h.nVertices, TexCoordBlock)
         == Success((Vec2sOf(host, b[24 * h.nVertices .. 32 * h.nVertices]), b[32 * h.nVertices ..]))
  {
    var V: nat := h.nVertices;
    Multiples(V);
    assert b[24 * V ..][..8 * V] == b[24 * V .. 32 * V];
    assert b[24 * V ..][8 * V ..] == b[32 * V ..];
  }

  lemma IndicesAt(host: Endian, h: Header, b: seq<u8>)
    requires BodySize(h) <= |b|
    ensures ReadU16s(host, b[32 * h.nVertices ..], 3 * h.nFaces, IndexBlock)
         == Success((U16sOf(host, b[32 * h.nVertices .. 32 * h.nVertices + 6 * h.nFaces]),
                     b[32 * h.nVertices + 6 * h.nFaces ..]))
  {
    var V: nat, F: nat := h.nVertices, h.nFaces;
    assert b[32 * V ..][..6 * F] == b[32 * V .. 32 * V + 6 * F];
    assert b[32 * V ..][6 * F ..] == b[32 * V + 6 * F ..];
  }

  lemma SubMeshesAt(host: Endian, h: Header, b: seq<u8>)
    requires BodySize(h) <= |b|
    ensures (2 * h.nSubMeshes) % 2 == 0 && (4 * h.nSubMeshes) % 4 == 0
    ensures ReadSubMeshes(host, b[32 * h.nVertices + 6 * h.nFaces ..], 2 * h.nSubMeshes, SubMeshBlock).Success?
    ensures ReadSubMeshes(host, b[32 * h.nVertices + 6 * h.nFaces ..], 2 * h.nSubMeshes, SubMeshBlock).value.0
         == SubMeshesOf(host, b[32 * h.nVertices + 6 * h.nFaces .. BodySize(h)])
  {
    var o: nat := 32 * h.nVertices + 6 * h.nFaces;
    Multiples(h.nSubMeshes);
    assert b[o..][..4 * h.nSubMeshes] == b[o .. BodySize(h)];
  }

  /**
    mesh_read (MeshReader.cpp:61-118): the header, then the arrays. `out` is
    the Mesh passed by reference: n_tris is never assigned, so it keeps its
    old value, and both n_texcoord and n_normals are set to n_vertices.
  */
  function MeshRead(host: Endian, b: seq<u8>, out: Mesh): (r: Result<Mesh, ReadError>)
    ensures r.Success? <==> 6 <= |b| && BodySize(ReadHeader(host, b).value.0) <= |b| - 6
    ensures r.Success? ==>
      var h := ReadHeader(host, b).value.0;
      var m := r.value;
      && m.nVertices == h.nVertices && m.nTexcoord == h.nVertices && m.nNormals == h.nVertices
      && m.nSubMeshes == h.nSubMeshes && m.nTris == out.nTris
      && m.vertices.Some? && |m.vertices.value| == h.nVertices
      && m.normals.Some? && |m.normals.value| == h.nVertices
      && m.texcoord.Some? && |m.texcoord.value| == h.nVertices
      && m.indices.Some? && |m.indices.value| == 3 * h.nFaces
      && m.subMeshes.Some? && |m.subMeshes.value| == h.nSubMeshes
  {
    var (h, b1) :- ReadHeader(host, b);
    var a :- ReadArrays(host, h, b1);
    Success(out.(nVertices := h.nVertices, nTexcoord := h.nVertices, nNormals := h.nVertices,
                 nSubMeshes := h.nSubMeshes, vertices := Some(a.vertices), normals := Some(a.normals),
                 texcoord := Some(a.texcoord), indices := Some(a.indices), subMeshes := Some(a.subMeshes)))
  }

  /**
    Every array mesh_read fills is its own slice of the bytes after the
    6-byte header, at the offsets the header's counts give.
  */
  lemma {:induction false} MeshReadSliced(host: Endian, b: seq<u8>, out: Mesh)
    requires MeshRead(host, b, out).Success?
    ensures 6 <= |b| && BodySize(ReadHeader(host, b).value.0) <= |b| - 6
    ensures var m := MeshRead(host, b, out).value;
      Sliced(host, ReadHeader(host, b).value.0, b[6..],
             Arrays(m.vertices.value, m.normals.value, m.texcoord.value, m.indices.value, m.subMeshes.value))
  {
    var (h, b1) := ReadHeader(host, b).value;
    ReadArraysSliced(host, h, b1);
  }

  /** The positions mesh_read returns are the first 12V bytes after the header, grouped. */
  lemma {:induction false} ReadArraysVertices(host: Endian, h: Header, b: seq<u8>)
    requires ReadArrays(host, h, b).Success?
    ensures ReadArrays(host, h, b).value.vertices == Vec3sOf(host, b[..4 * (3 * h.nVertices)])
  {
    MultipleMod(h.nVertices);
    assert ReadVec3f(host, b, 3 * h.nVertices, PositionBlock).Success?;
  }

  lemma {:induction false} MeshReadVertices(host: Endian, b: seq<u8>, out: Mesh)
    requires MeshRead(host, b, out).Success?
    ensures 6 <= |b|
    ensures MeshRead(host, b, out).value.vertices
         == Some(Vec3sOf(host, b[6..][..4 * (3 * ReadHeader(host, b).value.0.nVertices)]))
  {
    var (h, b1) := ReadHeader(host, b).value;
    ReadArraysVertices(host, h, b1);
  }
}
