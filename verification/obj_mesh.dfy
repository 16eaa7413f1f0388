/**
  Building a triangle mesh from a group of OBJ faces (objloader.cpp):
  getVertex merges corners that use the same (v, vt, vn) triple into one
  output vertex, and flushFaceGroup triangulates each face as a fan and
  emits one primitive per group.
*/
module ObjMesh {
  import opened Wrappers
  import opened MeshTypes
  import opened ObjIndex

  /** The v, vt and vn lists read from the file, in file order. */
  datatype Pools = Pools(v: seq<Vec3>, vt: seq<Vec2>, vn: seq<Vec3>)

  /** The temporary arrays of flushFaceGroup (objloader.cpp:384-388). */
  datatype Dedup = Dedup(vertexMap: map<Vertex, nat>, positions: seq<Vec3>,
                         normals: seq<Vec3>, texcoords: seq<Vec2>)

  const EmptyDedup := Dedup(map[], [], [], [])

  /** A corner getVertex can look up: a position exists, and each present index is in range. */
  predicate ValidCorner(p: Pools, c: Vertex) {
    0 <= c.v < |p.v| && c.vt < |p.vt| && c.vn < |p.vn|
  }

  /** Every key is stored at its own slot, which holds that key's position. */
  predicate Stored(p: Pools, d: Dedup) {
    forall k | k in d.vertexMap ::
      ValidCorner(p, k) && d.vertexMap[k] < |d.positions| && d.positions[d.vertexMap[k]] == p.v[k.v]
  }

  /** Distinct keys have distinct slots, and there is one slot per key. */
  predicate Distinct(d: Dedup) {
    && |d.positions| == |d.vertexMap|
    && forall k1, k2 | k1 in d.vertexMap && k2 in d.vertexMap && k1 != k2 :: d.vertexMap[k1] != d.vertexMap[k2]
  }

  /**
    Normals line up with positions as long as every key so far has a
    normal; likewise texture coordinates. A corner without one breaks the
    correspondence for the rest of the group.
  */
  predicate NormalsAligned(p: Pools, d: Dedup) {
    (forall k | k in d.vertexMap :: k.vn >= 0) ==>
      && |d.normals| == |d.positions|
      && forall k | k in d.vertexMap ::
           d.vertexMap[k] < |d.normals| && 0 <= k.vn < |p.vn| && d.normals[d.vertexMap[k]] == p.vn[k.vn]
  }

  predicate TexcoordsAligned(p: Pools, d: Dedup) {
    (forall k | k in d.vertexMap :: k.vt >= 0) ==>
      && |d.texcoords| == |d.positions|
      && forall k | k in d.vertexMap ::
           d.vertexMap[k] < |d.texcoords| && 0 <= k.vt < |p.vt| && d.texcoords[d.vertexMap[k]] == p.vt[k.vt]
  }

  predicate Inv(p: Pools, d: Dedup) {
    Stored(p, d) && Distinct(d) && NormalsAligned(p, d) && TexcoordsAligned(p, d)
  }

  /**
    getVertex (objloader.cpp:359-375): the slot of a corner seen before, or
    a new slot at the end holding its position, with its normal and texture
    coordinate appended when the corner has them.
  */
  function GetVertex(p: Pools, d: Dedup, i: Vertex): (r: (Dedup, nat))
    requires Inv(p, d) && ValidCorner(p, i)
    ensures Inv(p, r.0)
    ensures i in r.0.vertexMap && r.0.vertexMap[i] == r.1
    ensures r.1 < |r.0.positions| && r.0.positions[r.1] == p.v[i.v]
    ensures d.positions <= r.0.positions && d.vertexMap.Keys <= r.0.vertexMap.Keys
  {
    if i in d.vertexMap then (d, d.vertexMap[i])
    else
      InsertKeepsInv(p, d, i);
      (Insert(p, d, i), |d.positions|)
  }

  /**
    A corner seen before changes nothing; a new one takes the next slot, and
    its normal and texture coordinate are appended only when present.
  */
  lemma GetVertexCases(p: Pools, d: Dedup, i: Vertex)
    requires Inv(p, d) && ValidCorner(p, i)
    ensures var r := GetVertex(p, d, i);
      && (i in d.vertexMap ==> r == (d, d.vertexMap[i]))
      && (i !in d.vertexMap ==>
           && r.1 == |d.positions| && |r.0.positions| == |d.positions| + 1
           && r.0.vertexMap == d.vertexMap[i := r.1]
           && r.0.normals == d.normals + (if i.vn >= 0 then [p.vn[i.vn]] else [])
           && r.0.texcoords == d.texcoords + (if i.vt >= 0 then [p.vt[i.vt]] else []))
  {
  }

  /** The state getVertex builds for a corner not seen before. */
  function Insert(p: Pools, d: Dedup, i: Vertex): Dedup
    requires ValidCorner(p, i)
  {
    Dedup(d.vertexMap[i := |d.positions|], d.positions + [p.v[i.v]],
          d.normals + (if i.vn >= 0 then [p.vn[i.vn]] else []),
          d.texcoords + (if i.vt >= 0 then [p.vt[i.vt]] else []))
  }

  lemma {:induction false} InsertKeepsInv(p: Pools, d: Dedup, i: Vertex)
    requires Inv(p, d) && ValidCorner(p, i) && i !in d.vertexMap
    ensures Inv(p, Insert(p, d, i))
  {
    InsertKeepsStored(p, d, i);
    InsertKeepsNormals(p, d, i);
    InsertKeepsTexcoords(p, d, i);
    var d' := Insert(p, d, i);
    assert |d'.vertexMap| == |d.vertexMap| + 1;
  }

  lemma {:induction false} InsertKeepsStored(p: Pools, d: Dedup, i: Vertex)
    requires Stored(p, d) && ValidCorner(p, i) && i !in d.vertexMap
    ensures Stored(p, Insert(p, d, i))
  {
    var d' := Insert(p, d, i);
    forall k | k in d'.vertexMap
      ensures ValidCorner(p, k) && d'.vertexMap[k] < |d'.positions| && d'.positions[d'.vertexMap[k]] == p.v[k.v]
    {
      if k != i {
        assert d'.positions[d.vertexMap[k]] == d.positions[d.vertexMap[k]];
      }
    }
  }

  lemma {:induction false} InsertKeepsNormals(p: Pools, d: Dedup, i: Vertex)
    requires Stored(p, d) && Distinct(d) && NormalsAligned(p, d) && ValidCorner(p, i) && i !in d.vertexMap
    ensures NormalsAligned(p, Insert(p, d, i))
  {
    var d' := Insert(p, d, i);
    if forall k | k in d'.vertexMap :: k.vn >= 0 {
      assert i in d'.vertexMap;
      assert forall k | k in d.vertexMap :: k.vn >= 0 by {
        forall k | k in d.vertexMap ensures k.vn >= 0 {
          assert k in d'.vertexMap;
        }
      }
      forall k | k in d'.vertexMap
        ensures d'.vertexMap[k] < |d'.normals| && 0 <= k.vn < |p.vn| && d'.normals[d'.vertexMap[k]] == p.vn[k.vn]
      {
        if k != i {
          assert d'.normals[d.vertexMap[k]] == d.normals[d.vertexMap[k]];
        }
      }
    }
  }

  lemma {:induction false} InsertKeepsTexcoords(p: Pools, d: Dedup, i: Vertex)
    requires Stored(p, d) && Distinct(d) && TexcoordsAligned(p, d) && ValidCorner(p, i) && i !in d.vertexMap
    ensures TexcoordsAligned(p, Insert(p, d, i))
  {
    var d' := Insert(p, d, i);
    if forall k | k in d'.vertexMap :: k.vt >= 0 {
      assert i in d'.vertexMap;
      assert forall k | k in d.vertexMap :: k.vt >= 0 by {
        forall k | k in d.vertexMap ensures k.vt >= 0 {
          assert k in d'.vertexMap;
        }
      }
      forall k | k in d'.vertexMap
        ensures d'.vertexMap[k] < |d'.texcoords| && 0 <= k.vt < |p.vt| && d'.texcoords[d'.vertexMap[k]] == p.vt[k.vt]
      {
        if k != i {
          assert d'.texcoords[d.vertexMap[k]] == d.texcoords[d.vertexMap[k]];
        }
      }
    }
  }

  /** Looking a corner up again right after inserting it changes nothing. */
  lemma GetVertexIdempotent(p: Pools, d: Dedup, i: Vertex)
    requires Inv(p, d) && ValidCorner(p, i)
    ensures var (d1, n1) := GetVertex(p, d, i); GetVertex(p, d1, i) == (d1, n1)
  {
  }

  /** Vec3i: one output triangle as three slots. */
  datatype Triangle = Triangle(a: nat, b: nat, c: nat)

  /** One fan triangle as three corners. */
  datatype Corners = Corners(a: Vertex, b: Vertex, c: Vertex)

  /** The fan of a face: corners (f0, f[j-1], f[j]) for j from 2 on. */
  function Fan(face: seq<Vertex>): (r: seq<Corners>)
    requires |face| >= 2
    ensures |r| == |face| - 2
  {
    seq(|face| - 2, j requires 0 <= j < |face| - 2 => Corners(face[0], face[j + 1], face[j + 2]))
  }

  /** The fans of a group's faces, in order. */
  function FanOf(group: seq<seq<Vertex>>): seq<Corners>
    requires forall j :: 0 <= j < |group| ==> |group[j]| >= 2
  {
    if group == [] then [] else FanOf(group[..|group| - 1]) + Fan(group[|group| - 1])
  }

  /** The triangle count: a face of k corners gives k - 2 triangles. */
  function FanCount(group: seq<seq<Vertex>>): int {
    if group == [] then 0 else FanCount(group[..|group| - 1]) + |group[|group| - 1]| - 2
  }

  lemma {:induction false} FanOfCount(group: seq<seq<Vertex>>)
    requires forall j :: 0 <= j < |group| ==> |group[j]| >= 2
    ensures |FanOf(group)| == FanCount(group)
  {
    if group != [] {
      FanOfCount(group[..|group| - 1]);
    }
  }

  /** A triangle's slots are in range and hold the positions of the corners it stands for. */
  predicate Resolves(p: Pools, positions: seq<Vec3>, t: Triangle, c: Corners)
    requires ValidCorner(p, c.a) && ValidCorner(p, c.b) && ValidCorner(p, c.c)
  {
    && t.a < |positions| && t.b < |positions| && t.c < |positions|
    && positions[t.a] == p.v[c.a.v] && positions[t.b] == p.v[c.b.v] && positions[t.c] == p.v[c.c.v]
  }

  predicate ValidCorners(p: Pools, cs: seq<Corners>) {
    forall t :: 0 <= t < |cs| ==> ValidCorner(p, cs[t].a) && ValidCorner(p, cs[t].b) && ValidCorner(p, cs[t].c)
  }

  /** The triangles realise the fan: one per fan triangle, in order, on the right positions. */
  predicate Realises(p: Pools, positions: seq<Vec3>, tris: seq<Triangle>, fan: seq<Corners>)
    requires ValidCorners(p, fan)
  {
    |tris| == |fan| && forall t :: 0 <= t < |tris| ==> Resolves(p, positions, tris[t], fan[t])
  }

  /** Appending positions keeps every slot's contents. */
  lemma RealisesGrow(p: Pools, positions: seq<Vec3>, positions': seq<Vec3>, tris: seq<Triangle>, fan: seq<Corners>)
    requires ValidCorners(p, fan) && positions <= positions'
    requires Realises(p, positions, tris, fan)
    ensures Realises(p, positions', tris, fan)
  {
    forall t | 0 <= t < |tris| ensures Resolves(p, positions', tris[t], fan[t]) {
      assert Resolves(p, positions, tris[t], fan[t]);
    }
  }

  predicate ValidFace(p: Pools, face: seq<Vertex>) {
    forall c :: 0 <= c < |face| ==> ValidCorner(p, face[c])
  }

  /** Every face has at least two corners, and every corner is valid. */
  predicate ValidGroup(p: Pools, group: seq<seq<Vertex>>) {
    forall j :: 0 <= j < |group| ==> |group[j]| >= 2 && ValidFace(p, group[j])
  }

  /** Any prefix of the fan of a valid face has valid corners. */
  lemma ValidFanPrefix(p: Pools, face: seq<Vertex>, m: nat)
    requires ValidFace(p, face) && |face| >= 2 && m <= |face| - 2
    ensures ValidCorners(p, Fan(face)[..m])
  {
    forall t | 0 <= t < m
      ensures ValidCorner(p, Fan(face)[..m][t].a) && ValidCorner(p, Fan(face)[..m][t].b) && ValidCorner(p, Fan(face)[..m][t].c)
    {
      assert ValidCorner(p, face[0]) && ValidCorner(p, face[t + 1]) && ValidCorner(p, face[t + 2]);
    }
  }

  /** A TriangleMesh (objloader.cpp:103-122); an empty normal or texcoord array stays null. */
  datatype TriangleMesh = TriangleMesh(positions: seq<Vec3>, normals: Option<seq<Vec3>>,
                                       texcoords: Option<seq<Vec2>>, triangles: seq<Triangle>)

  /** Material names are all the model keeps of a material. */
  datatype Material = Material(name: string)

  datatype Primitive = Primitive(mesh: TriangleMesh, material: Material)

  function NonEmpty<T>(s: seq<T>): Option<seq<T>> {
    if |s| > 0 then Some(s) else None
  }

  lemma {:induction false} ValidFan(p: Pools, group: seq<seq<Vertex>>)
    requires ValidGroup(p, group)
    ensures ValidCorners(p, FanOf(group))
  {
    if group != [] {
      var last := group[|group| - 1];
      ValidFan(p, group[..|group| - 1]);
      ValidFanPrefix(p, last, |last| - 2);
      assert Fan(last)[..|last| - 2] == Fan(last);
      ValidCornersAppend(p, FanOf(group[..|group| - 1]), Fan(last));
    }
  }

  lemma ValidCornersAppend(p: Pools, f: seq<Corners>, g: seq<Corners>)
    requires ValidCorners(p, f) && ValidCorners(p, g)
    ensures ValidCorners(p, f + g)
  {
    forall t | 0 <= t < |f + g|
      ensures ValidCorner(p, (f + g)[t].a) && ValidCorner(p, (f + g)[t].b) && ValidCorner(p, (f + g)[t].c)
    {
      if t < |f| {
        assert (f + g)[t] == f[t];
      } else {
        assert (f + g)[t] == g[t - |f|];
      }
    }
  }

  /** One more triangle on slots resolving one more fan triangle keeps the correspondence. */
  lemma RealisesSnoc(p: Pools, positions: seq<Vec3>, positions': seq<Vec3>, tris: seq<Triangle>,
                     fan: seq<Corners>, t: Triangle, c: Corners)
    requires ValidCorners(p, fan) && positions <= positions'
    requires Realises(p, positions, tris, fan)
    requires ValidCorner(p, c.a) && ValidCorner(p, c.b) && ValidCorner(p, c.c)
    requires Resolves(p, positions', t, c)
    ensures ValidCorners(p, fan + [c])
    ensures Realises(p, positions', tris + [t], fan + [c])
  {
    assert ValidCorners(p, [c]);
    ValidCornersAppend(p, fan, [c]);
    RealisesGrow(p, positions, positions', tris, fan);
    forall u | 0 <= u < |tris| + 1 ensures Resolves(p, positions', (tris + [t])[u], (fan + [c])[u]) {
      if u < |tris| {
        assert (tris + [t])[u] == tris[u] && (fan + [c])[u] == fan[u];
      }
    }
  }

  /** The first k - 1 fan triangles of a face extend the first k - 2 by one. */
  lemma FanPrefixStep(done: seq<Corners>, face: seq<Vertex>, k: nat)
    requires 2 <= k < |face|
    ensures done + Fan(face)[..k - 1] == (done + Fan(face)[..k - 2]) + [Corners(face[0], face[k - 1], face[k])]
  {
    assert Fan(face)[..k - 1] == Fan(face)[..k - 2] + [Corners(face[0], face[k - 1], face[k])];
  }

  /** What the outer loop of flushFaceGroup needs to know about face j. */
  lemma GroupStep(p: Pools, group: seq<seq<Vertex>>, j: nat)
    requires ValidGroup(p, group) && j < |group|
    ensures |group[j]| >= 2 && ValidFace(p, group[j])
    ensures ValidGroup(p, group[..j]) && ValidGroup(p, group[..j + 1])
    ensures FanOf(group[..j + 1]) == FanOf(group[..j]) + Fan(group[j])
  {
    FanOfSnoc(group, j);
  }

  /** The fans of one more face extend the fans so far by that face's fan. */
  lemma FanOfSnoc(group: seq<seq<Vertex>>, j: nat)
    requires j < |group| && forall u :: 0 <= u < |group| ==> |group[u]| >= 2
    ensures FanOf(group[..j + 1]) == FanOf(group[..j]) + Fan(group[j])
  {
    assert group[..j + 1][..j] == group[..j];
  }

  lemma PrefixTrans<T>(a: seq<T>, b: seq<T>, c: seq<T>)
    requires a <= b && b <= c
    ensures a <= c
  {
    assert c[..|a|] == b[..|a|];
  }

  /** Growing a sequence keeps what each existing slot holds. */
  lemma SlotKept<T>(s: seq<T>, s': seq<T>, v: nat)
    requires s <= s' && v < |s|
    ensures v < |s'| && s'[v] == s[v]
  {
  }

  /** One step of the fan (objloader.cpp:399-403): look up the three corners and emit their triangle. */
  method AddTriangle(p: Pools, d: Dedup, triangles: seq<Triangle>, fan: seq<Corners>, c: Corners)
    returns (d': Dedup, triangles': seq<Triangle>)
    requires Inv(p, d) && ValidCorners(p, fan) && Realises(p, d.positions, triangles, fan)
    requires ValidCorner(p, c.a) && ValidCorner(p, c.b) && ValidCorner(p, c.c)
    ensures Inv(p, d') && d.positions <= d'.positions
    ensures ValidCorners(p, fan + [c])
    ensures Realises(p, d'.positions, triangles', fan + [c])
  {
    var (d0, v0) := GetVertex(p, d, c.a);
    var (d1, v1) := GetVertex(p, d0, c.b);
    var (d2, v2) := GetVertex(p, d1, c.c);
    PrefixTrans(d.positions, d0.positions, d1.positions);
    PrefixTrans(d.positions, d1.positions, d2.positions);
    PrefixTrans(d0.positions, d1.positions, d2.positions);
    SlotKept(d0.positions, d2.positions, v0);
    SlotKept(d1.positions, d2.positions, v1);
    assert Resolves(p, d2.positions, Triangle(v0, v1, v2), c);
    RealisesSnoc(p, d.positions, d2.positions, triangles, fan, Triangle(v0, v1, v2), c);
    d', triangles' := d2, triangles + [Triangle(v0, v1, v2)];
  }

  /**
    The inner loop of flushFaceGroup (objloader.cpp:394-404): the fan of one
    face, three getVertex lookups per triangle.
  */
  method TriangulateFace(p: Pools, d: Dedup, triangles: seq<Triangle>, done: seq<Corners>, face: seq<Vertex>)
    returns (d': Dedup, triangles': seq<Triangle>)
    requires Inv(p, d) && |face| >= 2 && ValidFace(p, face) && ValidCorners(p, done)
    requires Realises(p, d.positions, triangles, done)
    ensures ValidCorners(p, done + Fan(face))
    ensures Inv(p, d') && d.positions <= d'.positions
    ensures Realises(p, d'.positions, triangles', done + Fan(face))
  {
    d', triangles' := d, triangles;
    var i0 := face[0];
    var i2 := face[1];
    var k := 2;
    assert Fan(face)[..0] == [] && done + [] == done;
    while k < |face|
      invariant 2 <= k <= |face|
      invariant i0 == face[0] && i2 == face[k - 1]
      invariant Inv(p, d') && d.positions <= d'.positions
      invariant ValidCorners(p, done + Fan(face)[..k - 2])
      invariant Realises(p, d'.positions, triangles', done + Fan(face)[..k - 2])
    {
      var i1 := i2;
      i2 := face[k];
      FanPrefixStep(done, face, k);
      assert ValidCorner(p, i0) && ValidCorner(p, i1) && ValidCorner(p, i2);
      d', triangles' := AddTriangle(p, d', triangles', done + Fan(face)[..k - 2], Corners(i0, i1, i2));
      k := k + 1;
    }
    assert Fan(face)[..k - 2] == Fan(face);
  }

  /**
    The outer loop of flushFaceGroup (objloader.cpp:384-405): every face's
    fan, in order, into one set of merged vertices.
  */
  method TriangulateGroup(p: Pools, group: seq<seq<Vertex>>) returns (d: Dedup, triangles: seq<Triangle>)
    requires ValidGroup(p, group)
    ensures ValidCorners(p, FanOf(group))
    ensures Inv(p, d) && Realises(p, d.positions, triangles, FanOf(group))
  {
    d := EmptyDedup;
    triangles := [];
    var j := 0;
    while j < |group|
      invariant 0 <= j <= |group|
      invariant Inv(p, d)
      invariant ValidCorners(p, FanOf(group[..j]))
      invariant Realises(p, d.positions, triangles, FanOf(group[..j]))
    {
      GroupStep(p, group, j);
      d, triangles := TriangulateFace(p, d, triangles, FanOf(group[..j]), group[j]);
      j := j + 1;
    }
    assert group[..j] == group;
  }

  /**
    flushFaceGroup (objloader.cpp:379-428): nothing for an empty group;
    otherwise one new primitive holding the fan triangulation of every
    face, with shared corners merged, and the group emptied.
  */
  method FlushFaceGroup(p: Pools, group: seq<seq<Vertex>>, curMaterial: Material, model: seq<Primitive>)
    returns (model': seq<Primitive>, group': seq<seq<Vertex>>)
    requires ValidGroup(p, group)
    ensures ValidCorners(p, FanOf(group))
    ensures group == [] ==> model' == model && group' == group
    ensures group != [] ==>
      && group' == [] && |model'| == |model| + 1 && model'[..|model|] == model
      && model'[|model|].material == curMaterial
      && |model'[|model|].mesh.triangles| == FanCount(group)
      && Realises(p, model'[|model|].mesh.positions, model'[|model|].mesh.triangles, FanOf(group))
  {
    ValidFan(p, group);
    FanOfCount(group);
    if group == [] {
      return model, group;
    }
    var d, triangles := TriangulateGroup(p, group);
    var mesh := TriangleMesh(d.positions, NonEmpty(d.normals), NonEmpty(d.texcoords), triangles);
    model' := model + [Primitive(mesh, curMaterial)];
    group' := [];
  }
}
