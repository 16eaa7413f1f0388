/**
  mesh_read as written against the converter's output. The reader's header
  has three fields (MeshReader.cpp:20-24, 67) while the converter writes four
  and then the material-file name (MeshConv.cpp:97-103, 235-236), so the
  reader takes the fourth field and the name's first bytes for the first
  position. The writer-layout decoder in MeshFormat is the corrected reader.
*/
module MeshReaderFinding {
  import opened Wrappers
  import opened ByteOrder
  import opened MeshTypes
  import opened Scene
  import opened MeshWriter
  import opened MeshReader
  import opened MeshFormat
  import opened MeshRoundTrip

  /**
    On a big-endian host (where reading without swapping is right for the
    counts), mesh_read succeeds on every encodable file with a vertex, but
    the x of the first position it returns is made of the name-length field
    and the first two bytes of the name.
  */
  lemma {:induction false} AsWrittenReadsNameAsPosition(meshes: seq<AiMesh>, materialName: seq<u8>, out: Mesh)
    requires Encodable(meshes, materialName)
    requires TotalVertices(meshes) > 0 && |materialName| >= 2
    ensures var r := MeshRead(Big, MeshFileBytes(meshes, materialName), out);
      var len := |materialName| + 1;
      && r.Success?
      && r.value.nVertices == TotalVertices(meshes)
      && r.value.vertices.value[0].x == F32(len / 0x100, len % 0x100, materialName[0], materialName[1])
  {
    var len := |materialName| + 1;
    var file := MeshFileBytes(meshes, materialName);
    MeshReadAccepts(meshes, materialName, out);
    MeshReadFirstPosition(Big, file, out);
    FileFront(meshes, materialName);
    assert file[6..10] == [len / 0x100, len % 0x100, materialName[0], materialName[1]];
  }

  /** mesh_read on a big-endian host reads the right counts from the converter's output and has bytes enough. */
  lemma MeshReadAccepts(meshes: seq<AiMesh>, materialName: seq<u8>, out: Mesh)
    requires Encodable(meshes, materialName) && |materialName| >= 2
    ensures var file := MeshFileBytes(meshes, materialName);
      && 6 <= |file|
      && ReadHeader(Big, file).value.0 == Header(TotalVertices(meshes), TotalFaces(meshes), |meshes|)
      && MeshRead(Big, file, out).Success?
  {
    var file := MeshFileBytes(meshes, materialName);
    FileFront(meshes, materialName);
    HeaderFields(meshes, materialName);
    TexturedVerticesBound(meshes);
    var h := Header(TotalVertices(meshes), TotalFaces(meshes), |meshes|);
    assert ReadHeader(Big, file).value.0 == h;
    assert BodySize(h) <= |file| - 6;
  }

  /** The first float mesh_read returns is the one in bytes 6..10 of the file. */
  lemma {:induction false} MeshReadFirstPosition(host: Endian, b: seq<u8>, out: Mesh)
    requires MeshRead(host, b, out).Success? && ReadHeader(host, b).value.0.nVertices > 0
    ensures 10 <= |b| && MeshRead(host, b, out).value.vertices.value[0].x == LoadF32(host, b[6..10])
  {
    MeshReadVertices(host, b, out);
    var nV: nat := ReadHeader(host, b).value.0.nVertices;
    MultipleMod(nV);
    var data := b[6..][..12 * nV];
    assert 12 * nV <= |b| - 6;
    FirstVec3(host, data, nV);
    assert data[0..4] == b[6..][0..4] == b[6..10];
  }

  /** The x of the first vector of a non-empty block is its first four bytes. */
  lemma FirstVec3(host: Endian, data: seq<u8>, n: nat)
    requires |data| == 12 * n && n > 0
    ensures |data| % 12 == 0 && Vec3sOf(host, data)[0].x == LoadF32(host, data[0..4])
  {
    Multiples(n);
  }

  /** The first bytes of the converter's output and its length. */
  lemma {:induction false} FileFront(meshes: seq<AiMesh>, materialName: seq<u8>)
    requires Encodable(meshes, materialName) && |materialName| >= 2
    ensures var file := MeshFileBytes(meshes, materialName);
      var h := WriteHeader(meshes, (|materialName| + 1) % U16_MOD);
      && |file| == 8 + |materialName| + 1 + 24 * TotalVertices(meshes) + 8 * TexturedVertices(meshes)
           + 6 * TotalFaces(meshes) + 5 * |meshes|
      && file[0..2] == h[0..2] && file[2..4] == h[2..4] && file[4..6] == h[4..6]
      && file[6..10] == StoreU16(Big, |materialName| + 1) + materialName[0..2]
  {
    FileLength(meshes, materialName);
    var h := WriteHeader(meshes, (|materialName| + 1) % U16_MOD);
    FileHead(meshes, materialName);
    FrontBytes(h, materialName[..2], MeshFileBytes(meshes, materialName));
    HeaderNameLength(meshes, materialName);
  }

  lemma HeaderNameLength(meshes: seq<AiMesh>, materialName: seq<u8>)
    requires FitsHeader(meshes, materialName)
    ensures WriteHeader(meshes, (|materialName| + 1) % U16_MOD)[6..8] == StoreU16(Big, |materialName| + 1)
  {
    var len := |materialName| + 1;
    assert len < U16_MOD;
    assert len % U16_MOD == len;
    HeaderLast(meshes, len);
  }

  /** The last field of a header is its name length, most significant byte first. */
  lemma HeaderLast(meshes: seq<AiMesh>, lenMaterial: u16)
    ensures WriteHeader(meshes, lenMaterial)[6..8] == StoreU16(Big, lenMaterial)
  {
    var front := PutU16(TotalVertices(meshes) % U16_MOD) + PutU16(TotalFaces(meshes) % U16_MOD)
      + PutU16(|meshes| % U16_MOD);
    assert WriteHeader(meshes, lenMaterial) == front + PutU16(lenMaterial);
  }

  lemma FileLength(meshes: seq<AiMesh>, materialName: seq<u8>)
    requires Encodable(meshes, materialName)
    ensures |MeshFileBytes(meshes, materialName)| == 8 + |materialName| + 1 + 24 * TotalVertices(meshes)
      + 8 * TexturedVertices(meshes) + 6 * TotalFaces(meshes) + 5 * |meshes|
  {
  }

  /** The header, then the first two bytes of the name. */
  lemma FileHead(meshes: seq<AiMesh>, materialName: seq<u8>)
    requires Encodable(meshes, materialName) && |materialName| >= 2
    ensures MeshFileBytes(meshes, materialName)[..10]
      == WriteHeader(meshes, (|materialName| + 1) % U16_MOD) + materialName[..2]
  {
    var nm := WriteMaterialName(materialName);
    var rest := WritePositions(meshes) + (WriteNormals(meshes) + (WriteTexCoord(meshes)
      + (WriteIndices(meshes) + (WriteSubMeshes(meshes) + WriteSubMeshMaterials(meshes)))));
    PrefixOfConcat(WriteHeader(meshes, (|materialName| + 1) % U16_MOD), nm, rest, 2);
    assert nm[..2] == materialName[..2];
  }

  lemma PrefixOfConcat(h: seq<u8>, nm: seq<u8>, rest: seq<u8>, k: nat)
    requires k <= |nm|
    ensures (h + (nm + rest))[..|h| + k] == h + nm[..k]
  {
  }

  /** Ten bytes that start with an eight-byte header and two more bytes. */
  lemma FrontBytes(h: seq<u8>, two: seq<u8>, file: seq<u8>)
    requires |h| == 8 && |two| == 2 && 10 <= |file| && file[..10] == h + two
    ensures file[0..2] == h[0..2] && file[2..4] == h[2..4] && file[4..6] == h[4..6]
    ensures file[6..10] == h[6..8] + two
  {
    assert file[0..2] == file[..10][0..2];
    assert file[2..4] == file[..10][2..4];
    assert file[4..6] == file[..10][4..6];
    assert file[6..10] == file[..10][6..10];
  }

  /** A one-vertex scene at the origin whose file name is "m". */
  const Zero: F32 := F32(0, 0, 0, 0)
  const Origin: AiVector3D := AiVector3D(Zero, Zero, Zero)
  const OneVertex: AiScene :=
    AiScene([AiMesh([Origin], [Origin], Some([Origin]), [], 1)], [AiMaterial(None), AiMaterial(None)])

  /** The material-file name the converter derives from "m". */
  const OneVertexName: seq<u8> := [0x6D, 0x2E, 0x6D, 0x61, 0x74]

  /** OneVertex converts: its one mesh is well formed, textured and small. */
  lemma OneVertexEncodable()
    ensures Encodable(OneVertex.meshes, OneVertexName)
    ensures TotalVertices(OneVertex.meshes) == 1
    ensures ConvertMesh(Some(OneVertex), [0x6D]).0 == MeshFileBytes(OneVertex.meshes, OneVertexName)
  {
    var meshes := OneVertex.meshes;
    assert WellFormedMesh(meshes[0]);
    assert meshes[1..] == [];
    assert TotalVertices(meshes) == 1 && TotalFaces(meshes) == 0;
    assert [0x6D] + MatSuffix == OneVertexName;
  }

  /**
    The concrete input: converting OneVertex as "m" and reading the file back
    with mesh_read yields a first position that is not the origin.
  */
  lemma AsWrittenMisreadsOrigin(scene: AiScene, filename: seq<u8>, out: Mesh)
    requires scene == OneVertex && filename == [0x6D]
    requires WellFormed(scene.meshes)
    ensures var file := ConvertMesh(Some(scene), filename).0;
      var r := MeshRead(Big, file, out);
      && r.Success? && |r.value.vertices.value| == 1
      && r.value.vertices.value[0] != Vec3(Zero, Zero, Zero)
  {
    OneVertexEncodable();
    var file := MeshFileBytes(scene.meshes, OneVertexName);
    assert ConvertMesh(Some(scene), filename).0 == file;
    AsWrittenReadsNameAsPosition(scene.meshes, OneVertexName, out);
    assert MeshRead(Big, file, out).value.nVertices == 1;
  }
}
