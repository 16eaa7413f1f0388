/**
  The in-memory mesh of Mesh.h: the structure the mesh reader fills in.
  Arrays are sequences; a pointer the code leaves null is `None`.
*/
module MeshTypes {
  import opened Wrappers
  import opened ByteOrder

  datatype Vec3 = Vec3(x: F32, y: F32, z: F32) {
    /** Vec3::set (Mesh.h:13-17). */
    function Set(px: F32, py: F32, pz: F32): (r: Vec3)
      ensures r.x == px && r.y == py && r.z == pz
    {
      Vec3(px, py, pz)
    }
  }

  datatype Vec2 = Vec2(x: F32, y: F32) {
    /** Vec2::set (Mesh.h:29-32). */
    function Set(px: F32, py: F32): (r: Vec2)
      ensures r.x == px && r.y == py
    {
      Vec2(px, py)
    }
  }

  /** A run of `size` triangles starting at triangle `start` of the index array. */
  datatype SubMesh = SubMesh(start: u16, size: u16) {
    /**
      SubMesh::set (Mesh.h:44-47). Its parameters are u16, so an int argument
      is converted modulo 2^16 on the way in.
    */
    function Set(pStart: int, pSize: int): (r: SubMesh)
      ensures r.start == pStart % 0x1_0000 && r.size == pSize % 0x1_0000
      ensures 0 <= pStart < 0x1_0000 ==> r.start == pStart
      ensures 0 <= pSize < 0x1_0000 ==> r.size == pSize
    {
      SubMesh(pStart % 0x1_0000, pSize % 0x1_0000)
    }
  }

  /** struct Mesh (Mesh.h:50-71): five u16 counts and five arrays. */
  datatype Mesh = Mesh(
    nVertices: u16,
    nTris: u16,
    nTexcoord: u16,
    nNormals: u16,
    nSubMeshes: u16,
    vertices: Option<seq<Vec3>>,
    indices: Option<seq<u16>>,
    texcoord: Option<seq<Vec2>>,
    normals: Option<seq<Vec3>>,
    subMeshes: Option<seq<SubMesh>>)

  /**
    The Mesh constructor (Mesh.h:64-70). It nulls four of the five pointers
    and assigns nothing else: the counts and `indices` keep whatever
    indeterminate value `garbage` stands for.
  */
  function NewMesh(garbage: Mesh): (r: Mesh)
    ensures r.vertices == None && r.texcoord == None
    ensures r.normals == None && r.subMeshes == None
    ensures r.indices == garbage.indices
    ensures r.nVertices == garbage.nVertices && r.nTris == garbage.nTris
    ensures r.nTexcoord == garbage.nTexcoord && r.nNormals == garbage.nNormals
    ensures r.nSubMeshes == garbage.nSubMeshes
  {
    garbage.(vertices := None, texcoord := None, normals := None, subMeshes := None)
  }
}
