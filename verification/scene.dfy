/**
  The importer's scene as the converter sees it: an abstract input. Only the
  fields MeshConv.cpp reads are kept; counts are sequence lengths.
*/
module Scene {
  import opened Wrappers
  import opened ByteOrder

  datatype AiVector3D = AiVector3D(x: F32, y: F32, z: F32)

  /** A face: its corner indices into the vertex arrays of its own mesh. */
  datatype AiFace = AiFace(indices: seq<nat>)

  /** One sub-mesh: vertex attributes, faces and a material reference. */
  datatype AiMesh = AiMesh(
    vertices: seq<AiVector3D>,
    normals: seq<AiVector3D>,
    texCoords: Option<seq<AiVector3D>>,
    faces: seq<AiFace>,
    materialIndex: nat)
  {
    /** HasTextureCoords(0). */
    predicate HasTextureCoords() {
      texCoords.Some?
    }
  }

  /** A material; `diffuse` is the name GetTexture yields for the first diffuse texture. */
  datatype AiMaterial = AiMaterial(diffuse: Option<seq<u8>>)

  datatype AiScene = AiScene(meshes: seq<AiMesh>, materials: seq<AiMaterial>)

  /**
    What the writer relies on without checking: a normal for every vertex, a
    texture coordinate for every vertex when there are any, and triangles only
    (the assertion at MeshConv.cpp:149).
  */
  predicate WellFormedMesh(m: AiMesh) {
    && |m.normals| == |m.vertices|
    && (m.texCoords.Some? ==> |m.texCoords.value| == |m.vertices|)
    && forall f :: 0 <= f < |m.faces| ==> |m.faces[f].indices| == 3
  }

  predicate WellFormed(meshes: seq<AiMesh>) {
    forall i :: 0 <= i < |meshes| ==> WellFormedMesh(meshes[i])
  }

  /** Every corner of every face names one of its own mesh's vertices. */
  predicate LocalIndicesInRange(m: AiMesh) {
    forall f, c :: 0 <= f < |m.faces| && 0 <= c < |m.faces[f].indices| ==>
      m.faces[f].indices[c] < |m.vertices|
  }

  function TotalVertices(meshes: seq<AiMesh>): nat {
    if meshes == [] then 0 else |meshes[0].vertices| + TotalVertices(meshes[1..])
  }

  function TotalFaces(meshes: seq<AiMesh>): nat {
    if meshes == [] then 0 else |meshes[0].faces| + TotalFaces(meshes[1..])
  }

  /** The vertex count of the meshes that carry texture coordinates. */
  function TexturedVertices(meshes: seq<AiMesh>): nat {
    if meshes == [] then 0
    else (if meshes[0].HasTextureCoords() then |meshes[0].vertices| else 0) + TexturedVertices(meshes[1..])
  }

  predicate AllTextured(meshes: seq<AiMesh>) {
    forall i :: 0 <= i < |meshes| ==> meshes[i].HasTextureCoords()
  }

  /**
    The texture-coordinate count equals the vertex count exactly when every
    mesh with vertices has texture coordinates.
  */
  lemma {:induction false} TexturedVerticesBound(meshes: seq<AiMesh>)
    ensures TexturedVertices(meshes) <= TotalVertices(meshes)
    ensures TexturedVertices(meshes) == TotalVertices(meshes) <==>
      forall i :: 0 <= i < |meshes| && |meshes[i].vertices| > 0 ==> meshes[i].HasTextureCoords()
  {
    if meshes != [] {
      TexturedVerticesBound(meshes[1..]);
      forall i | 1 <= i < |meshes|
        ensures meshes[i] == meshes[1..][i - 1]
      {
      }
    }
  }

  lemma {:induction false} TotalsSplit(meshes: seq<AiMesh>, k: nat)
    requires k <= |meshes|
    ensures TotalVertices(meshes) == TotalVertices(meshes[..k]) + TotalVertices(meshes[k..])
    ensures TotalFaces(meshes) == TotalFaces(meshes[..k]) + TotalFaces(meshes[k..])
  {
    if k > 0 {
      TotalsSplit(meshes[1..], k - 1);
      assert meshes[1..][..k - 1] == meshes[..k][1..];
      assert meshes[1..][k - 1..] == meshes[k..];
    }
  }

  lemma {:induction false} TotalFacesSnoc(meshes: seq<AiMesh>, k: nat)
    requires k < |meshes|
    ensures TotalFaces(meshes[..k + 1]) == TotalFaces(meshes[..k]) + |meshes[k].faces|
  {
    TotalsSplit(meshes[..k + 1], k);
    assert meshes[..k + 1][..k] == meshes[..k];
    assert meshes[..k + 1][k..] == [meshes[k]];
    assert [meshes[k]][1..] == [];
  }

  /** The totals over the first i meshes are the first mesh's counts plus the totals over the next i - 1. */
  lemma TotalsPrefix(meshes: seq<AiMesh>, i: nat)
    requires 0 < i <= |meshes|
    ensures TotalFaces(meshes[..i]) == |meshes[0].faces| + TotalFaces(meshes[1..][..i - 1])
    ensures TotalVertices(meshes[..i]) == |meshes[0].vertices| + TotalVertices(meshes[1..][..i - 1])
  {
    assert meshes[..i][1..] == meshes[1..][..i - 1];
  }

  lemma WellFormedParts(a: seq<AiMesh>, b: seq<AiMesh>)
    requires WellFormed(a + b)
    ensures WellFormed(a) && WellFormed(b)
  {
    forall i | 0 <= i < |a|
      ensures WellFormedMesh(a[i])
    {
      assert a[i] == (a + b)[i];
    }
    forall i | 0 <= i < |b|
      ensures WellFormedMesh(b[i])
    {
      assert b[i] == (a + b)[|a| + i];
    }
  }

  lemma WellFormedTail(meshes: seq<AiMesh>)
    requires WellFormed(meshes) && meshes != []
    ensures WellFormed(meshes[1..])
  {
    forall i | 0 <= i < |meshes| - 1
      ensures WellFormedMesh(meshes[1..][i])
    {
      assert meshes[1..][i] == meshes[i + 1];
    }
  }
}
