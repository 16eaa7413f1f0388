/**
  The binary mesh encoder of MeshConv.cpp. Each section writer returns the
  bytes it appends to the output file; ConvertMesh concatenates them in the
  file's fixed order. Every multi-byte value goes through PutU16 or PutF32,
  which on the little-endian writer host yield canonical (big-endian) bytes.
*/
module MeshWriter {
  import opened Wrappers
  import opened ByteOrder
  import opened MeshTypes
  import opened Scene

  const U16_MOD: nat := 0x1_0000

  /**
    CopyData_3f (MeshConv.cpp:63-69): x, y, z, each swapped, so that a
    canonical load of each four bytes gives the coordinate back.
  */
  function CopyData3(v: AiVector3D): (r: seq<u8>)
    ensures |r| == 12
    ensures LoadF32(Canonical, r[0..4]) == v.x && LoadF32(Canonical, r[4..8]) == v.y
         && LoadF32(Canonical, r[8..12]) == v.z
  {
    LoadStoreF32(Canonical, v.x);
    LoadStoreF32(Canonical, v.y);
    LoadStoreF32(Canonical, v.z);
    var r := PutF32(v.x) + PutF32(v.y) + PutF32(v.z);
    assert r[0..4] == PutF32(v.x) && r[4..8] == PutF32(v.y) && r[8..12] == PutF32(v.z);
    r
  }

  /** CopyData_2f (MeshConv.cpp:56-61): x, y, each swapped; z is dropped. */
  function CopyData2(v: AiVector3D): (r: seq<u8>)
    ensures |r| == 8
    ensures LoadF32(Canonical, r[0..4]) == v.x && LoadF32(Canonical, r[4..8]) == v.y
  {
    LoadStoreF32(Canonical, v.x);
    LoadStoreF32(Canonical, v.y);
    var r := PutF32(v.x) + PutF32(v.y);
    assert r[0..4] == PutF32(v.x) && r[4..8] == PutF32(v.y);
    r
  }

  function CopyData(elementSize: nat, v: AiVector3D): (r: seq<u8>)
    requires elementSize == 2 || elementSize == 3
    ensures |r| == 4 * elementSize
  {
    if elementSize == 3 then CopyData3(v) else CopyData2(v)
  }

  /** WriteData (MeshConv.cpp:71-80): n elements of elementSize swapped floats each. */
  function WriteData(src: seq<AiVector3D>, elementSize: nat): (r: seq<u8>)
    requires elementSize == 2 || elementSize == 3
    ensures |r| == 4 * elementSize * |src|
  {
    if src == [] then [] else CopyData(elementSize, src[0]) + WriteData(src[1..], elementSize)
  }

  /** Cutting the block of width w at position i >= 1 out of head + tail, where head is one block wide. */
  lemma BlockShift(head: seq<u8>, tail: seq<u8>, w: nat, i: nat)
    requires |head| == w && 1 <= i && w * (i + 1) <= |head| + |tail|
    ensures (head + tail)[w * i .. w * (i + 1)] == tail[w * (i - 1) .. w * i]
  {
    assert w * i == w + w * (i - 1);
    assert w * (i + 1) == w + w * i;
  }

  /**
    Element i of the source occupies bytes [4 * elementSize * i, 4 * elementSize * (i + 1))
    of WriteData's output, as its x, y (and z) swapped in that order.
  */
  lemma {:induction false} WriteDataElements(src: seq<AiVector3D>, elementSize: nat, i: nat)
    requires elementSize == 2 || elementSize == 3
    requires i < |src|
    ensures 4 * elementSize * (i + 1) <= |WriteData(src, elementSize)|
    ensures WriteData(src, elementSize)[4 * elementSize * i .. 4 * elementSize * (i + 1)]
      == CopyData(elementSize, src[i])
  {
    var w := 4 * elementSize;
    assert w * (i + 1) <= w * |src| by {
      assert i + 1 <= |src|;
    }
    if i > 0 {
      WriteDataElements(src[1..], elementSize, i - 1);
      BlockShift(CopyData(elementSize, src[0]), WriteData(src[1..], elementSize), w, i);
    }
  }

  /**
    WriteHeader (MeshConv.cpp:82-108): eight bytes holding, in canonical
    order, the vertex total, the face total, the mesh count and len_material,
    each reduced to 16 bits by the u16 accumulators without overflow check.
  */
  function WriteHeader(meshes: seq<AiMesh>, lenMaterial: u16): (r: seq<u8>)
    ensures |r| == 8
    ensures LoadU16(Canonical, r[0..2]) == TotalVertices(meshes) % U16_MOD
    ensures LoadU16(Canonical, r[2..4]) == TotalFaces(meshes) % U16_MOD
    ensures LoadU16(Canonical, r[4..6]) == |meshes| % U16_MOD
    ensures LoadU16(Canonical, r[6..8]) == lenMaterial
  {
    PutU16(TotalVertices(meshes) % U16_MOD) + PutU16(TotalFaces(meshes) % U16_MOD)
      + PutU16(|meshes| % U16_MOD) + PutU16(lenMaterial)
  }

  /** WriteMaterialName (MeshConv.cpp:110-115): the name and its terminating NUL. */
  function WriteMaterialName(name: seq<u8>): (r: seq<u8>)
    ensures |r| == |name| + 1 && r[..|name|] == name && r[|name|] == 0
  {
    name + [0]
  }

  /** WritePositions (MeshConv.cpp:117-122): every mesh's positions, mesh by mesh. */
  function WritePositions(meshes: seq<AiMesh>): (r: seq<u8>)
    ensures |r| == 12 * TotalVertices(meshes)
  {
    if meshes == [] then [] else WriteData(meshes[0].vertices, 3) + WritePositions(meshes[1..])
  }

  /** WriteNormals (MeshConv.cpp:124-129): one normal per vertex, mesh by mesh. */
  function WriteNormals(meshes: seq<AiMesh>): (r: seq<u8>)
    requires WellFormed(meshes)
    ensures |r| == 12 * TotalVertices(meshes)
  {
    if meshes == [] then [] else WriteData(meshes[0].normals, 3) + WriteNormals(meshes[1..])
  }

  /**
    WriteTexCoord (MeshConv.cpp:131-137): texture coordinates of the meshes
    that have them; a mesh without them contributes nothing.
  */
  function WriteTexCoord(meshes: seq<AiMesh>): (r: seq<u8>)
    requires WellFormed(meshes)
    ensures |r| == 8 * TexturedVertices(meshes)
  {
    if meshes == [] then []
    else
      (if meshes[0].HasTextureCoords() then WriteData(meshes[0].texCoords.value, 2) else [])
        + WriteTexCoord(meshes[1..])
  }

  /**
    The index entries of one mesh (MeshConv.cpp:147-155): three per face,
    each the running offset plus the local index, truncated to 16 bits.
  */
  function FaceIndices(faces: seq<AiFace>, acc: nat): (r: seq<u16>)
    requires forall f :: 0 <= f < |faces| ==> |faces[f].indices| == 3
    ensures |r| == 3 * |faces|
  {
    if faces == [] then []
    else
      var ix := faces[0].indices;
      [(acc + ix[0]) % U16_MOD, (acc + ix[1]) % U16_MOD, (acc + ix[2]) % U16_MOD]
        + FaceIndices(faces[1..], acc)
  }

  /** Entry 3f + c of a mesh's index entries is corner c of face f plus the offset, modulo 2^16. */
  lemma {:induction false} FaceIndicesEntry(faces: seq<AiFace>, acc: nat, f: nat, c: nat)
    requires forall f :: 0 <= f < |faces| ==> |faces[f].indices| == 3
    requires f < |faces| && c < 3
    ensures FaceIndices(faces, acc)[3 * f + c] == (acc + faces[f].indices[c]) % U16_MOD
  {
    if f > 0 {
      FaceIndicesEntry(faces[1..], acc, f - 1, c);
    }
  }

  /**
    The global index buffer WriteIndices produces (MeshConv.cpp:139-162):
    mesh i's entries are offset by `acc` plus the vertex counts of the
    meshes before it.
  */
  function GlobalIndices(meshes: seq<AiMesh>, acc: nat): (r: seq<u16>)
    requires WellFormed(meshes)
    ensures |r| == 3 * TotalFaces(meshes)
  {
    if meshes == [] then []
    else FaceIndices(meshes[0].faces, acc) + GlobalIndices(meshes[1..], acc + |meshes[0].vertices|)
  }

  /**
    When every local index is below its mesh's vertex count and the totals
    fit in 16 bits, every global index is below acc + the vertex total: no
    entry wraps and every entry addresses the concatenated vertex arrays.
  */
  lemma {:induction false} GlobalIndicesBound(meshes: seq<AiMesh>, acc: nat, k: nat)
    requires WellFormed(meshes)
    requires forall i :: 0 <= i < |meshes| ==> LocalIndicesInRange(meshes[i])
    requires acc + TotalVertices(meshes) <= U16_MOD
    requires k < |GlobalIndices(meshes, acc)|
    ensures GlobalIndices(meshes, acc)[k] < acc + TotalVertices(meshes)
  {
    var m := meshes[0];
    var head := FaceIndices(m.faces, acc);
    assert WellFormedMesh(m) && LocalIndicesInRange(m);
    if k < |head| {
      FaceIndicesBound(m, acc, k);
    } else {
      WellFormedTail(meshes);
      forall i | 0 <= i < |meshes| - 1
        ensures LocalIndicesInRange(meshes[1..][i])
      {
        assert meshes[1..][i] == meshes[i + 1];
      }
      GlobalIndicesBound(meshes[1..], acc + |m.vertices|, k - |head|);
    }
  }

  /** Every entry of one mesh's index list is below acc + its vertex count. */
  lemma FaceIndicesBound(m: AiMesh, acc: nat, k: nat)
    requires WellFormedMesh(m) && LocalIndicesInRange(m)
    requires acc + |m.vertices| <= U16_MOD
    requires k < 3 * |m.faces|
    ensures FaceIndices(m.faces, acc)[k] < acc + |m.vertices|
  {
    var f, c := k / 3, k % 3;
    FaceIndicesEntry(m.faces, acc, f, c);
    assert m.faces[f].indices[c] < |m.vertices|;
  }

  lemma GlobalIndicesInRange(meshes: seq<AiMesh>)
    requires WellFormed(meshes)
    requires forall i :: 0 <= i < |meshes| ==> LocalIndicesInRange(meshes[i])
    requires TotalVertices(meshes) < U16_MOD
    ensures forall k :: 0 <= k < |GlobalIndices(meshes, 0)| ==> GlobalIndices(meshes, 0)[k] < TotalVertices(meshes)
  {
    forall k | 0 <= k < |GlobalIndices(meshes, 0)|
      ensures GlobalIndices(meshes, 0)[k] < TotalVertices(meshes)
    {
      GlobalIndicesBound(meshes, 0, k);
    }
  }

  /**
    The 3F entries of mesh i sit in the buffer right after those of the
    meshes before it, and are mesh i's own entries offset by the vertex
    count of the meshes before it.
  */
  lemma {:induction false} GlobalIndicesBlock(meshes: seq<AiMesh>, acc: nat, i: nat, j: nat)
    requires WellFormed(meshes)
    requires i < |meshes| && j < 3 * |meshes[i].faces|
    ensures WellFormedMesh(meshes[i])
    ensures 3 * TotalFaces(meshes[..i]) + j < |GlobalIndices(meshes, acc)|
    ensures GlobalIndices(meshes, acc)[3 * TotalFaces(meshes[..i]) + j]
         == FaceIndices(meshes[i].faces, acc + TotalVertices(meshes[..i]))[j]
  {
    var m := meshes[0];
    if i == 0 {
      assert WellFormedMesh(m);
      assert meshes[..0] == [];
    } else {
      TotalsPrefix(meshes, i);
      WellFormedTail(meshes);
      assert meshes[1..][i - 1] == meshes[i];
      GlobalIndicesBlock(meshes[1..], acc + |m.vertices|, i - 1, j);
    }
  }

  /**
    Corner c of face f of mesh i lands at entry 3 * (faces before mesh i)
    + 3f + c of the buffer, offset by acc and the vertex count of the meshes
    before mesh i, modulo 2^16.
  */
  lemma GlobalIndicesEntry(meshes: seq<AiMesh>, acc: nat, i: nat, f: nat, c: nat)
    requires WellFormed(meshes)
    requires i < |meshes| && f < |meshes[i].faces| && c < 3
    ensures 3 * TotalFaces(meshes[..i]) + 3 * f + c < |GlobalIndices(meshes, acc)|
    ensures GlobalIndices(meshes, acc)[3 * TotalFaces(meshes[..i]) + 3 * f + c]
         == (acc + TotalVertices(meshes[..i]) + meshes[i].faces[f].indices[c]) % U16_MOD
  {
    GlobalIndicesBlock(meshes, acc, i, 3 * f + c);
    FaceIndicesEntry(meshes[i].faces, acc + TotalVertices(meshes[..i]), f, c);
  }

  /** WriteIndices (MeshConv.cpp:139-162). */
  function WriteIndices(meshes: seq<AiMesh>): (r: seq<u8>)
    requires WellFormed(meshes)
    ensures |r| == 6 * TotalFaces(meshes)
  {
    PutU16s(GlobalIndices(meshes, 0))
  }

  /**
    The descriptor table WriteSubMeshes builds (MeshConv.cpp:164-185): one
    (start, triangle count) pair per mesh, `start` a u16 accumulator.
  */
  function SubMeshTable(meshes: seq<AiMesh>, start: u16): (r: seq<SubMesh>)
    ensures |r| == |meshes|
    ensures |r| > 0 ==> r[0].start == start
    ensures forall i :: 0 <= i < |r| ==> r[i].size == |meshes[i].faces| % U16_MOD
  {
    if meshes == [] then []
    else
      var size := |meshes[0].faces| % U16_MOD;
      var tail := SubMeshTable(meshes[1..], (start + size) % U16_MOD);
      assert forall i :: 1 <= i < |meshes| ==> meshes[i] == meshes[1..][i - 1];
      [SubMesh(start, size)] + tail
  }

  lemma ModAdd(a: nat, b: nat)
    ensures (a % U16_MOD + b) % U16_MOD == (a + b) % U16_MOD
  {
    var q := a / U16_MOD;
    assert a == q * U16_MOD + a % U16_MOD;
    ModShift(a % U16_MOD + b, q);
  }

  lemma {:induction false} ModShift(x: nat, q: nat)
    ensures (x + q * U16_MOD) % U16_MOD == x % U16_MOD
  {
    if q > 0 {
      ModShift(x, q - 1);
      assert x + q * U16_MOD == (x + (q - 1) * U16_MOD) + U16_MOD;
    }
  }

  /**
    Descriptor i starts at the triangle count of the meshes before it
    (modulo 2^16); with a face total below 2^16 the last descriptor ends
    exactly at that total, the value in the header's second field.
  */
  lemma {:induction false} SubMeshTableStarts(meshes: seq<AiMesh>, start: u16, i: nat)
    requires i < |meshes|
    ensures SubMeshTable(meshes, start)[i].start == (start + TotalFaces(meshes[..i])) % U16_MOD
  {
    if i > 0 {
      var size := |meshes[0].faces| % U16_MOD;
      var t := TotalFaces(meshes[1..][..i - 1]);
      SubMeshTableStarts(meshes[1..], (start + size) % U16_MOD, i - 1);
      assert SubMeshTable(meshes, start)[i] == SubMeshTable(meshes[1..], (start + size) % U16_MOD)[i - 1];
      assert meshes[1..][..i - 1] == meshes[..i][1..];
      assert TotalFaces(meshes[..i]) == |meshes[0].faces| + t;
      ModAdd(start + size, t);
      ModAdd(|meshes[0].faces|, start + t);
    }
  }

  lemma {:induction false} SubMeshTableCovers(meshes: seq<AiMesh>)
    requires |meshes| > 0 && TotalFaces(meshes) < U16_MOD
    ensures var t := SubMeshTable(meshes, 0);
      t[|t| - 1].start + t[|t| - 1].size == TotalFaces(meshes)
  {
    var n := |meshes|;
    var t := SubMeshTable(meshes, 0);
    SubMeshTableStarts(meshes, 0, n - 1);
    TotalsSplit(meshes, n - 1);
    assert meshes[n - 1..] == [meshes[n - 1]];
    assert meshes[n - 1..][1..] == [];
    var before := TotalFaces(meshes[..n - 1]);
    var last := |meshes[n - 1].faces|;
    assert TotalFaces(meshes[n - 1..]) == last;
    assert before + last == TotalFaces(meshes);
    assert t[n - 1].start == before % U16_MOD == before;
    assert t[n - 1].size == last % U16_MOD == last;
  }

  /** Without wrap-around, descriptor k + 1 starts where descriptor k ends. */
  lemma {:induction false} SubMeshTableStep(meshes: seq<AiMesh>, k: nat)
    requires TotalFaces(meshes) < U16_MOD && k + 1 < |meshes|
    ensures var t := SubMeshTable(meshes, 0);
      t[k + 1].start == t[k].start + t[k].size
  {
    var t := SubMeshTable(meshes, 0);
    var before, size := TotalFaces(meshes[..k]), |meshes[k].faces|;
    SubMeshTableStarts(meshes, 0, k);
    SubMeshTableStarts(meshes, 0, k + 1);
    TotalFacesSnoc(meshes, k);
    TotalsSplit(meshes, k + 1);
    assert before + size < U16_MOD;
    SmallMod(before);
    SmallMod(size);
    SmallMod(before + size);
    assert t[k].start == before;
    assert t[k].size == size;
    assert t[k + 1].start == before + size;
  }

  lemma SmallMod(x: nat)
    requires x < U16_MOD
    ensures x % U16_MOD == x
  {
  }

  lemma SubMeshTableContiguous(meshes: seq<AiMesh>)
    requires TotalFaces(meshes) < U16_MOD
    ensures var t := SubMeshTable(meshes, 0);
      forall k :: 0 <= k < |t| - 1 ==> t[k + 1].start == t[k].start + t[k].size
  {
    forall k | 0 <= k < |meshes| - 1
      ensures SubMeshTable(meshes, 0)[k + 1].start == SubMeshTable(meshes, 0)[k].start + SubMeshTable(meshes, 0)[k].size
    {
      SubMeshTableStep(meshes, k);
    }
  }

  function SubMeshBytes(table: seq<SubMesh>): (r: seq<u8>)
    ensures |r| == 4 * |table|
  {
    if table == [] then [] else PutU16(table[0].start) + PutU16(table[0].size) + SubMeshBytes(table[1..])
  }

  /** WriteSubMeshes (MeshConv.cpp:164-185). */
  function WriteSubMeshes(meshes: seq<AiMesh>): (r: seq<u8>)
    ensures |r| == 4 * |meshes|
  {
    SubMeshBytes(SubMeshTable(meshes, 0))
  }

  /**
    The material byte of one mesh (MeshConv.cpp:193): mMaterialIndex - 1 in
    unsigned arithmetic, truncated to 8 bits, so the default material 0
    becomes 255.
  */
  function MaterialByte(materialIndex: nat): (r: u8)
    ensures 1 <= materialIndex <= 0x100 ==> r == materialIndex - 1
    ensures materialIndex == 0 ==> r == 0xFF
    ensures (r + 1) % 0x100 == materialIndex % 0x100
  {
    (materialIndex - 1) % 0x100
  }

  /** WriteSubMeshMaterials (MeshConv.cpp:187-200): one byte per mesh. */
  function WriteSubMeshMaterials(meshes: seq<AiMesh>): (r: seq<u8>)
    ensures |r| == |meshes|
    ensures forall i :: 0 <= i < |meshes| ==> r[i] == MaterialByte(meshes[i].materialIndex)
  {
    seq(|meshes|, i requires 0 <= i < |meshes| => MaterialByte(meshes[i].materialIndex))
  }

  /** ".mat" as bytes. */
  const MatSuffix: seq<u8> := [0x2E, 0x6D, 0x61, 0x74]

  /** The whole mesh file for a scene and a material-file name (MeshConv.cpp:235-242). */
  function MeshFileBytes(meshes: seq<AiMesh>, materialName: seq<u8>): seq<u8>
    requires WellFormed(meshes)
  {
    WriteHeader(meshes, (|materialName| + 1) % U16_MOD)
      + (WriteMaterialName(materialName)
      + (WritePositions(meshes)
      + (WriteNormals(meshes)
      + (WriteTexCoord(meshes)
      + (WriteIndices(meshes)
      + (WriteSubMeshes(meshes)
      + WriteSubMeshMaterials(meshes)))))))
  }

  /**
    The layout of the mesh file (MeshConv.cpp:235-242): the header with the
    material-name length counting its terminator, the NUL-terminated name,
    the vertex, index and sub-mesh blocks, and one material byte per mesh
    last.
  */
  lemma MeshFileLayout(meshes: seq<AiMesh>, materialName: seq<u8>)
    requires WellFormed(meshes)
    ensures var r := MeshFileBytes(meshes, materialName);
      && |r| == 9 + |materialName| + 24 * TotalVertices(meshes) + 8 * TexturedVertices(meshes)
                + 6 * TotalFaces(meshes) + 5 * |meshes|
      && LoadU16(Canonical, r[0..2]) == TotalVertices(meshes) % U16_MOD
      && LoadU16(Canonical, r[2..4]) == TotalFaces(meshes) % U16_MOD
      && LoadU16(Canonical, r[4..6]) == |meshes| % U16_MOD
      && LoadU16(Canonical, r[6..8]) == (|materialName| + 1) % U16_MOD
      && r[8 .. 8 + |materialName|] == materialName && r[8 + |materialName|] == 0
      && r[|r| - |meshes| ..] == WriteSubMeshMaterials(meshes)
  {
    var h := WriteHeader(meshes, (|materialName| + 1) % U16_MOD);
    var n := WriteMaterialName(materialName);
    var rest := WritePositions(meshes) + (WriteNormals(meshes) + (WriteTexCoord(meshes)
      + (WriteIndices(meshes) + (WriteSubMeshes(meshes) + WriteSubMeshMaterials(meshes)))));
    var r := MeshFileBytes(meshes, materialName);
    assert r == h + (n + rest);
    assert r[0..8] == h;
    assert r[8 .. 8 + |materialName| + 1] == n;
    assert r[0..2] == h[0..2] && r[2..4] == h[2..4] && r[4..6] == h[4..6] && r[6..8] == h[6..8];
  }

  /**
    ConvertMesh (MeshConv.cpp:223-253): the bytes left in `filename.m`, and
    the function's return value. The output file is created before the
    import, so a failed import leaves it empty; `ret` is never set, so the
    result is false either way.
  */
  function ConvertMesh(scene: Option<AiScene>, filename: seq<u8>): (r: (seq<u8>, bool))
    requires scene.Some? ==> WellFormed(scene.value.meshes)
    ensures !r.1
    ensures scene.None? <==> r.0 == []
    ensures scene.Some? ==>
      |r.0| == 8 + |filename| + 5 + 24 * TotalVertices(scene.value.meshes)
        + 8 * TexturedVertices(scene.value.meshes) + 6 * TotalFaces(scene.value.meshes)
        + 5 * |scene.value.meshes|
  {
    match scene
    case None => ([], false)
    case Some(s) => (MeshFileBytes(s.meshes, filename + MatSuffix), false)
  }
}
