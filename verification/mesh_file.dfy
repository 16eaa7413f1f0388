/**
  A decoder that follows the layout the converter writes (MeshConv.cpp:235-242),
  built from the reader's block decoders, and the round trip between the two.
  It loads every value in canonical byte order: on a little-endian host that
  is one swap per value, on a big-endian host none.
*/
module MeshFormat {
  import opened Wrappers
  import opened ByteOrder
  import opened MeshTypes
  import opened Scene
  import opened MeshWriter
  import opened MeshReader

  /** Everything a mesh file holds. */
  datatype MeshFileContents = MeshFileContents(materialName: seq<u8>, mesh: Mesh, materials: seq<u8>)

  /** Header fields as the converter lays them out: four canonical u16 values. */
  function Field(b: seq<u8>, k: nat): u16
    requires 2 * k + 2 <= |b|
  {
    U16At(Canonical, b, k)
  }

  /** The arrays of a mesh file that follow the name, in file order. */
  datatype Blocks = Blocks(vertices: seq<Vec3>, normals: seq<Vec3>, texcoord: seq<Vec2>,
                           indices: seq<u16>, subMeshes: seq<SubMesh>, materials: seq<u8>)

  function BlocksSize(nV: nat, nF: nat, nS: nat): nat {
    32 * nV + 6 * nF + 5 * nS
  }

  /**
    The blocks after the name: positions, normals and texture coordinates
    (nV each), 3 nF indices, nS descriptors and nS material bytes.
  */
  function DecodeBlocks(b: seq<u8>, nV: nat, nF: nat, nS: nat): (r: Result<Blocks, ReadError>)
    ensures r.Success? <==> BlocksSize(nV, nF, nS) <= |b|
    ensures |b| < 12 * nV ==> r == Failure(Truncated(PositionBlock))
    ensures r.Success? ==>
      && |r.value.vertices| == nV && |r.value.normals| == nV && |r.value.texcoord| == nV
      && |r.value.indices| == 3 * nF && |r.value.subMeshes| == nS && |r.value.materials| == nS
  {
    var (vertices, b3) :- ReadVec3f(Canonical, b, 3 * nV, PositionBlock);
    var (normals, b4) :- ReadVec3f(Canonical, b3, 3 * nV, NormalBlock);
    var (texcoord, b5) :- ReadVec2f(Canonical, b4, 2 * nV, TexCoordBlock);
    var (indices, b6) :- ReadU16s(Canonical, b5, 3 * nF, IndexBlock);
    var (subMeshes, b7) :- ReadSubMeshes(Canonical, b6, 2 * nS, SubMeshBlock);
    var (materials, _) :- ReadBytes(b7, nS, MaterialBlock);
    Success(Blocks(vertices, normals, texcoord, indices, subMeshes, materials))
  }

  /**
    Decodes a mesh file: a header (V, F, S, name length), the name, then the
    blocks. A file too short for a block fails naming that block.
  */
  function DecodeMeshFile(b: seq<u8>): (r: Result<MeshFileContents, ReadError>)
    ensures r.Success? <==> 8 <= |b| && 8 + Field(b, 3) + BlocksSize(Field(b, 0), Field(b, 1), Field(b, 2)) <= |b|
    ensures |b| < 8 ==> r == Failure(Truncated(HeaderBlock))
    ensures 8 <= |b| && 8 + Field(b, 3) <= |b| < 8 + Field(b, 3) + 12 * Field(b, 0) ==>
      r == Failure(Truncated(PositionBlock))
    ensures r.Success? ==>
      var m := r.value.mesh;
      && m.nVertices == Field(b, 0) && m.nTris == Field(b, 1) && m.nSubMeshes == Field(b, 2)
      && m.nTexcoord == m.nVertices && m.nNormals == m.nVertices
      && |r.value.materialName| == Field(b, 3) && |r.value.materials| == m.nSubMeshes
      && m.vertices.Some? && |m.vertices.value| == m.nVertices
      && m.normals.Some? && |m.normals.value| == m.nVertices
      && m.texcoord.Some? && |m.texcoord.value| == m.nVertices
      && m.indices.Some? && |m.indices.value| == 3 * m.nTris
      && m.subMeshes.Some? && |m.subMeshes.value| == m.nSubMeshes
  {
    var (header, b1) :- ReadBytes(b, 8, HeaderBlock);
    assert header[0..2] == b[0..2] && header[2..4] == b[2..4] && header[4..6] == b[4..6] && header[6..8] == b[6..8];
    var nV, nF, nS := Field(header, 0), Field(header, 1), Field(header, 2);
    var (name, b2) :- ReadBytes(b1, Field(header, 3), NameBlock);
    var k :- DecodeBlocks(b2, nV, nF, nS);
    Success(MeshFileContents(name,
      Mesh(nV, nF, nV, nV, nS, Some(k.vertices), Some(k.indices), Some(k.texcoord), Some(k.normals), Some(k.subMeshes)),
      k.materials))
  }

  // Reference definitions of what the converter puts in each block.

  function ToVec3(v: AiVector3D): Vec3 {
    Vec3(v.x, v.y, v.z)
  }

  function ToVec2(v: AiVector3D): Vec2 {
    Vec2(v.x, v.y)
  }

  function Vec3List(src: seq<AiVector3D>): (r: seq<Vec3>)
    ensures |r| == |src|
  {
    seq(|src|, i requires 0 <= i < |src| => ToVec3(src[i]))
  }

  function Vec2List(src: seq<AiVector3D>): (r: seq<Vec2>)
    ensures |r| == |src|
  {
    seq(|src|, i requires 0 <= i < |src| => ToVec2(src[i]))
  }

  /** All positions, mesh after mesh. */
  function Positions(meshes: seq<AiMesh>): seq<Vec3> {
    if meshes == [] then [] else Vec3List(meshes[0].vertices) + Positions(meshes[1..])
  }

  /** All normals, mesh after mesh. */
  function Normals(meshes: seq<AiMesh>): seq<Vec3> {
    if meshes == [] then [] else Vec3List(meshes[0].normals) + Normals(meshes[1..])
  }

  /** All texture coordinates of the meshes that have them, mesh after mesh. */
  function TexCoords(meshes: seq<AiMesh>): seq<Vec2> {
    if meshes == [] then []
    else
      (if meshes[0].HasTextureCoords() then Vec2List(meshes[0].texCoords.value) else [])
        + TexCoords(meshes[1..])
  }

  // Block round trips.

  lemma {:induction false} Vec3sOfAppend(a: seq<u8>, c: seq<u8>)
    requires |a| % 12 == 0 && |c| % 12 == 0
    ensures Vec3sOf(Canonical, a + c) == Vec3sOf(Canonical, a) + Vec3sOf(Canonical, c)
  {
    if a != [] {
      var ac := a + c;
      assert ac[12..] == a[12..] + c;
      assert ac[0..4] == a[0..4] && ac[4..8] == a[4..8] && ac[8..12] == a[8..12];
      var v := Vec3(FloatAt(Canonical, a, 0), FloatAt(Canonical, a, 1), FloatAt(Canonical, a, 2));
      assert Vec3sOf(Canonical, a) == [v] + Vec3sOf(Canonical, a[12..]);
      assert Vec3sOf(Canonical, ac) == [v] + Vec3sOf(Canonical, ac[12..]);
      Vec3sOfAppend(a[12..], c);
    } else {
      assert a + c == c;
    }
  }

  lemma {:induction false} Vec2sOfAppend(a: seq<u8>, c: seq<u8>)
    requires |a| % 8 == 0 && |c| % 8 == 0
    ensures Vec2sOf(Canonical, a + c) == Vec2sOf(Canonical, a) + Vec2sOf(Canonical, c)
  {
    if a != [] {
      var ac := a + c;
      assert ac[8..] == a[8..] + c;
      assert ac[0..4] == a[0..4] && ac[4..8] == a[4..8];
      var v := Vec2(FloatAt(Canonical, a, 0), FloatAt(Canonical, a, 1));
      assert Vec2sOf(Canonical, a) == [v] + Vec2sOf(Canonical, a[8..]);
      assert Vec2sOf(Canonical, ac) == [v] + Vec2sOf(Canonical, ac[8..]);
      Vec2sOfAppend(a[8..], c);
    } else {
      assert a + c == c;
    }
  }

  lemma {:induction false} Vec3sOfWriteData(src: seq<AiVector3D>)
    ensures Vec3sOf(Canonical, WriteData(src, 3)) == Vec3List(src)
  {
    if src != [] {
      var head := CopyData3(src[0]);
      Vec3sOfWriteData(src[1..]);
      Vec3sOfAppend(head, WriteData(src[1..], 3));
      assert head[12..] == [];
      assert head[0..4] == PutF32(src[0].x) && head[4..8] == PutF32(src[0].y) && head[8..12] == PutF32(src[0].z);
      LoadStoreF32(Canonical, src[0].x);
      LoadStoreF32(Canonical, src[0].y);
      LoadStoreF32(Canonical, src[0].z);
      assert Vec3sOf(Canonical, head) == [ToVec3(src[0])];
      assert Vec3List(src) == [ToVec3(src[0])] + Vec3List(src[1..]);
    }
  }

  lemma {:induction false} Vec2sOfWriteData(src: seq<AiVector3D>)
    ensures Vec2sOf(Canonical, WriteData(src, 2)) == Vec2List(src)
  {
    if src != [] {
      var head := CopyData2(src[0]);
      Vec2sOfWriteData(src[1..]);
      Vec2sOfAppend(head, WriteData(src[1..], 2));
      assert head[8..] == [];
      assert head[0..4] == PutF32(src[0].x) && head[4..8] == PutF32(src[0].y);
      LoadStoreF32(Canonical, src[0].x);
      LoadStoreF32(Canonical, src[0].y);
      assert Vec2sOf(Canonical, head) == [ToVec2(src[0])];
      assert Vec2List(src) == [ToVec2(src[0])] + Vec2List(src[1..]);
    }
  }

  lemma {:induction false} DecodePositions(meshes: seq<AiMesh>)
    ensures Vec3sOf(Canonical, WritePositions(meshes)) == Positions(meshes)
  {
    if meshes != [] {
      var a, c := WriteData(meshes[0].vertices, 3), WritePositions(meshes[1..]);
      assert WritePositions(meshes) == a + c;
      Multiples(|meshes[0].vertices|);
      Multiples(TotalVertices(meshes[1..]));
      DecodePositions(meshes[1..]);
      Vec3sOfAppend(a, c);
      Vec3sOfWriteData(meshes[0].vertices);
    }
  }

  lemma {:induction false} DecodeNormals(meshes: seq<AiMesh>)
    requires WellFormed(meshes)
    ensures Vec3sOf(Canonical, WriteNormals(meshes)) == Normals(meshes)
  {
    if meshes != [] {
      WellFormedTail(meshes);
      var a, c := WriteData(meshes[0].normals, 3), WriteNormals(meshes[1..]);
      assert WriteNormals(meshes) == a + c;
      Multiples(|meshes[0].normals|);
      Multiples(TotalVertices(meshes[1..]));
      DecodeNormals(meshes[1..]);
      Vec3sOfAppend(a, c);
      Vec3sOfWriteData(meshes[0].normals);
    }
  }

  lemma {:induction false} DecodeTexCoords(meshes: seq<AiMesh>)
    requires WellFormed(meshes)
    ensures Vec2sOf(Canonical, WriteTexCoord(meshes)) == TexCoords(meshes)
  {
    if meshes != [] {
      WellFormedTail(meshes);
      DecodeTexCoords(meshes[1..]);
      if meshes[0].HasTextureCoords() {
        Vec2sOfAppend(WriteData(meshes[0].texCoords.value, 2), WriteTexCoord(meshes[1..]));
        Vec2sOfWriteData(meshes[0].texCoords.value);
      } else {
        assert WriteTexCoord(meshes) == WriteTexCoord(meshes[1..]);
      }
    }
  }

  lemma {:induction false} DecodeU16s(xs: seq<u16>)
    ensures U16sOf(Canonical, PutU16s(xs)) == xs
  {
    if xs != [] {
      var b := PutU16s(xs);
      assert b[0..2] == PutU16(xs[0]);
      assert b[2..] == PutU16s(xs[1..]);
      LoadStoreU16(Canonical, xs[0]);
      DecodeU16s(xs[1..]);
    }
  }

  lemma {:induction false} DecodeSubMeshes(t: seq<SubMesh>)
    ensures SubMeshesOf(Canonical, SubMeshBytes(t)) == t
  {
    if t != [] {
      var b := SubMeshBytes(t);
      assert b[0..2] == PutU16(t[0].start);
      assert b[2..4] == PutU16(t[0].size);
      assert b[4..] == SubMeshBytes(t[1..]);
      LoadStoreU16(Canonical, t[0].start);
      LoadStoreU16(Canonical, t[0].size);
      DecodeSubMeshes(t[1..]);
    }
  }
}

module MeshRoundTrip {
  import opened Wrappers
  import opened ByteOrder
  import opened MeshTypes
  import opened Scene
  import opened MeshWriter
  import opened MeshReader
  import opened MeshFormat

  /** The conditions under which the file format loses nothing. */
  predicate Encodable(meshes: seq<AiMesh>, materialName: seq<u8>) {
    && WellFormed(meshes)
    && AllTextured(meshes)
    && FitsHeader(meshes, materialName)
  }

  /** Every header field holds its count without truncation. */
  predicate FitsHeader(meshes: seq<AiMesh>, materialName: seq<u8>) {
    && TotalVertices(meshes) < U16_MOD
    && TotalFaces(meshes) < U16_MOD
    && |meshes| < U16_MOD
    && |materialName| + 1 < U16_MOD
  }

  /** What a decoder should recover from the converter's output. */
  function Expected(meshes: seq<AiMesh>, materialName: seq<u8>): MeshFileContents
    requires Encodable(meshes, materialName)
  {
    var nV, nF := TotalVertices(meshes), TotalFaces(meshes);
    MeshFileContents(
      materialName + [0],
      Mesh(nV, nF, nV, nV, |meshes|,
        Some(Positions(meshes)), Some(GlobalIndices(meshes, 0)), Some(TexCoords(meshes)),
        Some(Normals(meshes)), Some(SubMeshTable(meshes, 0))),
      WriteSubMeshMaterials(meshes))
  }

  lemma ReadBytesPrefix(a: seq<u8>, c: seq<u8>, n: nat, block: Block)
    requires |a| == n
    ensures ReadBytes(a + c, n, block) == Success((a, c))
  {
    assert (a + c)[..n] == a && (a + c)[n..] == c;
  }

  lemma ReadVec3fPrefix(a: seq<u8>, c: seq<u8>, count: nat, block: Block)
    requires |a| == 12 * count
    ensures ReadVec3f(Canonical, a + c, 3 * count, block) == Success((Vec3sOf(Canonical, a), c))
  {
    ReadBytesPrefix(a, c, 12 * count, block);
  }

  lemma ReadVec2fPrefix(a: seq<u8>, c: seq<u8>, count: nat, block: Block)
    requires |a| == 8 * count
    ensures ReadVec2f(Canonical, a + c, 2 * count, block) == Success((Vec2sOf(Canonical, a), c))
  {
    ReadBytesPrefix(a, c, 8 * count, block);
  }

  lemma ReadU16sPrefix(a: seq<u8>, c: seq<u8>, n: nat, block: Block)
    requires |a| == 2 * n
    ensures ReadU16s(Canonical, a + c, n, block) == Success((U16sOf(Canonical, a), c))
  {
    ReadBytesPrefix(a, c, 2 * n, block);
  }

  lemma ReadSubMeshesPrefix(a: seq<u8>, c: seq<u8>, count: nat, block: Block)
    requires |a| == 4 * count
    ensures ReadSubMeshes(Canonical, a + c, 2 * count, block) == Success((SubMeshesOf(Canonical, a), c))
  {
    ReadBytesPrefix(a, c, 4 * count, block);
  }

  lemma DecodeBlocksConcat(p: seq<u8>, n: seq<u8>, t: seq<u8>, i: seq<u8>, s: seq<u8>, m: seq<u8>,
                           nV: nat, nF: nat, nS: nat)
    requires |p| == 12 * nV && |n| == 12 * nV && |t| == 8 * nV
    requires |i| == 6 * nF && |s| == 4 * nS && |m| == nS
    requires |p| % 12 == 0 && |n| % 12 == 0 && |t| % 8 == 0 && |i| % 2 == 0 && |s| % 4 == 0
    ensures DecodeBlocks(p + (n + (t + (i + (s + m)))), nV, nF, nS)
      == Success(Blocks(Vec3sOf(Canonical, p), Vec3sOf(Canonical, n), Vec2sOf(Canonical, t),
                        U16sOf(Canonical, i), SubMeshesOf(Canonical, s), m))
  {
    var b6 := s + m;
    var b5 := i + b6;
    var b4 := t + b5;
    var b3 := n + b4;
    ReadVec3fPrefix(p, b3, nV, PositionBlock);
    ReadVec3fPrefix(n, b4, nV, NormalBlock);
    ReadVec2fPrefix(t, b5, nV, TexCoordBlock);
    ReadU16sPrefix(i, b6, 3 * nF, IndexBlock);
    ReadSubMeshesPrefix(s, m, nS, SubMeshBlock);
    ReadBytesPrefix(m, [], nS, MaterialBlock);
    assert m + [] == m;
  }

  lemma {:induction false} DecodeBlocksRoundTrip(meshes: seq<AiMesh>)
    requires WellFormed(meshes) && AllTextured(meshes)
    ensures
      var b := WritePositions(meshes) + (WriteNormals(meshes) + (WriteTexCoord(meshes)
        + (WriteIndices(meshes) + (WriteSubMeshes(meshes) + WriteSubMeshMaterials(meshes)))));
      DecodeBlocks(b, TotalVertices(meshes), TotalFaces(meshes), |meshes|)
        == Success(Blocks(Positions(meshes), Normals(meshes), TexCoords(meshes),
             GlobalIndices(meshes, 0), SubMeshTable(meshes, 0), WriteSubMeshMaterials(meshes)))
  {
    var nV, nF, nS := TotalVertices(meshes), TotalFaces(meshes), |meshes|;
    var p, n, t := WritePositions(meshes), WriteNormals(meshes), WriteTexCoord(meshes);
    var i, s, m := WriteIndices(meshes), WriteSubMeshes(meshes), WriteSubMeshMaterials(meshes);
    TexturedVerticesBound(meshes);
    assert |t| == 8 * nV;
    var b6 := s + m;
    var b5 := i + b6;
    var b4 := t + b5;
    var b3 := n + b4;
    var b := p + b3;
    Multiples(nV);
    Multiples(3 * nF);
    Multiples(nS);
    DecodeBlocksConcat(p, n, t, i, s, m, nV, nF, nS);
    DecodePositions(meshes);
    DecodeNormals(meshes);
    DecodeTexCoords(meshes);
    DecodeU16s(GlobalIndices(meshes, 0));
    DecodeSubMeshes(SubMeshTable(meshes, 0));
  }

  lemma {:induction false} HeaderFields(meshes: seq<AiMesh>, materialName: seq<u8>)
    requires FitsHeader(meshes, materialName)
    ensures var h := WriteHeader(meshes, (|materialName| + 1) % U16_MOD);
      && Field(h, 0) == TotalVertices(meshes) && Field(h, 1) == TotalFaces(meshes)
      && Field(h, 2) == |meshes| && Field(h, 3) == |materialName| + 1
  {
    SmallMod(TotalVertices(meshes));
    SmallMod(TotalFaces(meshes));
    SmallMod(|meshes|);
    SmallMod(|materialName| + 1);
    var h := WriteHeader(meshes, |materialName| + 1);
    assert Field(h, 0) == LoadU16(Canonical, h[0..2]);
    assert Field(h, 1) == LoadU16(Canonical, h[2..4]);
    assert Field(h, 2) == LoadU16(Canonical, h[4..6]);
    assert Field(h, 3) == LoadU16(Canonical, h[6..8]);
  }

  /**
    Round trip: for a scene whose totals fit in 16 bits and whose meshes all
    have texture coordinates, decoding the converter's output recovers the
    name, every vertex attribute, the global index buffer, the descriptor
    table and the material bytes.
  */
  lemma {:induction false} RoundTrip(meshes: seq<AiMesh>, materialName: seq<u8>)
    requires Encodable(meshes, materialName)
    ensures DecodeMeshFile(MeshFileBytes(meshes, materialName)) == Success(Expected(meshes, materialName))
  {
    var h := WriteHeader(meshes, (|materialName| + 1) % U16_MOD);
    var nm := WriteMaterialName(materialName);
    var rest := WritePositions(meshes) + (WriteNormals(meshes) + (WriteTexCoord(meshes)
      + (WriteIndices(meshes) + (WriteSubMeshes(meshes) + WriteSubMeshMaterials(meshes)))));
    var file := MeshFileBytes(meshes, materialName);
    assert file == h + (nm + rest);
    HeaderFields(meshes, materialName);
    DecodeBlocksRoundTrip(meshes);
    var k := Blocks(Positions(meshes), Normals(meshes), TexCoords(meshes),
      GlobalIndices(meshes, 0), SubMeshTable(meshes, 0), WriteSubMeshMaterials(meshes));
    assert DecodeBlocks(rest, Field(h, 0), Field(h, 1), Field(h, 2)) == Success(k);
    DecodeLayout(h, nm, rest, k);
  }

  /** A header, a name as long as its fourth field and decodable blocks make a decodable file. */
  lemma DecodeLayout(h: seq<u8>, nm: seq<u8>, rest: seq<u8>, k: Blocks)
    requires |h| == 8 && |nm| == Field(h, 3)
    requires DecodeBlocks(rest, Field(h, 0), Field(h, 1), Field(h, 2)) == Success(k)
    ensures var nV := Field(h, 0);
      DecodeMeshFile(h + (nm + rest)) == Success(MeshFileContents(nm,
        Mesh(nV, Field(h, 1), nV, nV, Field(h, 2), Some(k.vertices), Some(k.indices), Some(k.texcoord),
          Some(k.normals), Some(k.subMeshes)), k.materials))
  {
    ReadBytesPrefix(h, nm + rest, 8, HeaderBlock);
    ReadBytesPrefix(nm, rest, |nm|, NameBlock);
  }

  /** Every decoded index addresses a decoded vertex. */
  lemma {:induction false} DecodedIndicesInRange(meshes: seq<AiMesh>, materialName: seq<u8>)
    requires Encodable(meshes, materialName)
    requires forall i :: 0 <= i < |meshes| ==> LocalIndicesInRange(meshes[i])
    ensures DecodeMeshFile(MeshFileBytes(meshes, materialName)).Success?
    ensures var m := DecodeMeshFile(MeshFileBytes(meshes, materialName)).value.mesh;
      forall k :: 0 <= k < |m.indices.value| ==> m.indices.value[k] < m.nVertices
  {
    RoundTrip(meshes, materialName);
    GlobalIndicesInRange(meshes);
  }

  /**
    The decoded descriptors start at triangle 0, each starts where the
    previous one ends, and the last ends at the decoded triangle count.
  */
  lemma {:induction false} DecodedSubMeshesTile(meshes: seq<AiMesh>, materialName: seq<u8>)
    requires Encodable(meshes, materialName)
    ensures DecodeMeshFile(MeshFileBytes(meshes, materialName)).Success?
    ensures var m := DecodeMeshFile(MeshFileBytes(meshes, materialName)).value.mesh;
      var sm := m.subMeshes.value;
      && (|sm| > 0 ==> sm[0].start == 0 && sm[|sm| - 1].start + sm[|sm| - 1].size == m.nTris)
      && (forall k :: 0 <= k < |sm| - 1 ==> sm[k + 1].start == sm[k].start + sm[k].size)
  {
    RoundTrip(meshes, materialName);
    var m := DecodeMeshFile(MeshFileBytes(meshes, materialName)).value.mesh;
    assert m.subMeshes.value == SubMeshTable(meshes, 0) && m.nTris == TotalFaces(meshes);
    SubMeshTableContiguous(meshes);
    if |meshes| > 0 {
      SubMeshTableCovers(meshes);
    }
  }

  /** Each decoded material byte plus one is its mesh's material reference. */
  lemma {:induction false} DecodedMaterials(meshes: seq<AiMesh>, materialName: seq<u8>)
    requires Encodable(meshes, materialName)
    requires forall i :: 0 <= i < |meshes| ==> 1 <= meshes[i].materialIndex <= 0x100
    ensures DecodeMeshFile(MeshFileBytes(meshes, materialName)).Success?
    ensures var d := DecodeMeshFile(MeshFileBytes(meshes, materialName)).value;
      |d.materials| == |meshes|
      && forall k :: 0 <= k < |meshes| ==> d.materials[k] == meshes[k].materialIndex - 1
  {
    RoundTrip(meshes, materialName);
    var d := DecodeMeshFile(MeshFileBytes(meshes, materialName)).value;
    var w := WriteSubMeshMaterials(meshes);
    assert d.materials == w;
    forall k | 0 <= k < |meshes|
      ensures w[k] == meshes[k].materialIndex - 1
    {
      assert w[k] == MaterialByte(meshes[k].materialIndex);
    }
  }

  lemma DecodeShort(b: seq<u8>)
    requires 8 <= |b| && |b| < 8 + Field(b, 3) + BlocksSize(Field(b, 0), Field(b, 1), Field(b, 2))
    ensures DecodeMeshFile(b).Failure?
  {
  }

  /**
    A mesh with vertices but no texture coordinates leaves the texture block
    short of what the decoder reads, so the converter's output cannot be
    decoded at all.
  */
  lemma {:induction false} UntexturedNotDecodable(meshes: seq<AiMesh>, materialName: seq<u8>, j: nat)
    requires WellFormed(meshes) && FitsHeader(meshes, materialName)
    requires j < |meshes| && |meshes[j].vertices| > 0 && !meshes[j].HasTextureCoords()
    ensures DecodeMeshFile(MeshFileBytes(meshes, materialName)).Failure?
  {
    TexturedVerticesBound(meshes);
    assert TexturedVertices(meshes) < TotalVertices(meshes);
    var h := WriteHeader(meshes, (|materialName| + 1) % U16_MOD);
    var file := MeshFileBytes(meshes, materialName);
    var rest := WriteMaterialName(materialName) + (WritePositions(meshes) + (WriteNormals(meshes)
      + (WriteTexCoord(meshes) + (WriteIndices(meshes) + (WriteSubMeshes(meshes) + WriteSubMeshMaterials(meshes))))));
    assert file == h + rest;
    SameFields(h, rest);
    HeaderFields(meshes, materialName);
    assert |file| == 8 + (|materialName| + 1) + 24 * TotalVertices(meshes)
      + 8 * TexturedVertices(meshes) + 6 * TotalFaces(meshes) + 5 * |meshes|;
    DecodeShort(file);
  }

  /** A header followed by anything has that header's fields. */
  lemma SameFields(h: seq<u8>, rest: seq<u8>)
    requires |h| == 8
    ensures forall k :: 0 <= k < 4 ==> Field(h + rest, k) == Field(h, k)
  {
    forall k | 0 <= k < 4 ensures Field(h + rest, k) == Field(h, k) {
      assert (h + rest)[2 * k..2 * k + 2] == h[2 * k..2 * k + 2];
    }
  }
}
