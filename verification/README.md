# MeshConv in Dafny

A model of the MeshConv converter and its companion reader:

- the byte-order codec (`swap_u16`, `swap_f32`);
- the binary mesh encoder (`ConvertMesh` and its section writers);
- the material sidecar writer and reader (`WriteMaterial`, `ReadMaterial`);
- the mesh reader `mesh_read` and the in-memory `Mesh` of `Mesh.h`;
- the OBJ face logic of `objloader.cpp`: index normalisation, the `v/vt/vn`
  triplet parser, the vertex key order, vertex merging and fan triangulation.

Bytes are `u8` (a `nat` below 256) and u16 values are `nat`s below 65536. All
16-bit wrap-around of the source is written out as `% 0x1_0000`. A float is
never interpreted. It is an opaque four-byte pattern (`ByteOrder.F32`), and the
model assumes the host moves every pattern through a `float` bit for bit. That
holds for SSE builds; an x87 build can change a signalling NaN (see
"Left out").

Host byte order is explicit (`ByteOrder.Endian`). The converter is taken to run
on a little-endian host. That is an assumption: the code does not check it.
Swapping each value and storing it little-endian then gives big-endian bytes,
which is the canonical on-disk order (`ByteOrder.PutU16`, `ByteOrder.PutF32`).
`mesh_read` never swaps, so its host is a parameter. On a big-endian host it
reads canonical values unchanged.

Modules, one per source component:

| module | file | models |
|---|---|---|
| `Wrappers` | wrappers.dfy | `Option`, `Result` |
| `ByteOrder` | byte_order.dfy | swap routines, host memory layout |
| `MeshTypes` | mesh_types.dfy | `Vec3`, `Vec2`, `SubMesh`, `Mesh` (Mesh.h) |
| `Scene` | scene.dfy | the imported scene, as an abstract input |
| `MeshWriter` | mesh_writer.dfy | the section writers and `ConvertMesh` |
| `MeshReader` | mesh_reader.dfy | `header_t`, `readVec3f`, `readVec2f`, `mesh_read` |
| `MeshFormat`, `MeshRoundTrip` | mesh_file.dfy | a decoder for the layout the writer produces, and the round trip |
| `MeshReaderFinding` | mesh_reader_finding.dfy | `mesh_read` against the writer's output |
| `MaterialFile` | material.dfy | `WriteMaterial`, `ReadMaterial` |
| `ObjText` | obj_text.dfy | `strspn`/`strcspn`/`atoi`, `parseSep`, `parseSepOpt`, `isSep`, `getFilePath` |
| `ObjIndex` | obj_index.dfy | `fix_v/vt/vn`, `getInt3`, `operator<` on `Vertex`, the `f` line loop |
| `ObjMesh` | obj_mesh.dfy | `getVertex`, `flushFaceGroup` |

The mesh file round trip holds only under these preconditions
(`MeshRoundTrip.Encodable`):

- the vertex total, face total, mesh count and name length + 1 each fit in 16 bits;
- every mesh has texture coordinates;
- every mesh has one normal per vertex and only triangular faces.

The material round trip holds when every non-default material has a diffuse
texture (`MaterialFile.AllTexturedFrom1`). The names must also be short enough
for a signed `char` length (`MaterialFile.SidecarFits`).

The model follows the code where it departs from the format's evident intent:

- the code never rejects a count above 65535: it truncates it modulo 2^16;
- material reference 0 is written as byte 255, not rejected;
- `mesh_read` does not byte-swap;
- `mesh_read` reads a three-field header and does not skip the material name.

A scene with a mesh that has vertices but no texture coordinates gives a file
the decoder cannot read, because the texture block comes out short
(`MeshRoundTrip.UntexturedNotDecodable`). So a single quad mesh without
texture coordinates does not round-trip through the code as written. The last
point of the list above is recorded under "Findings". `MeshFormat.DecodeMeshFile` is the
reader for the layout the writer actually produces. It uses the reader's own
block decoders.

## Model

| member | source | states |
|---|---|---|
| `ByteOrder.SwapU16` | MeshConv.cpp:30-40 | On either host, the result's two memory bytes are the argument's in reverse order. |
| `ByteOrder.SwapF32` | MeshConv.cpp:16-28 | On either host, result memory byte k is argument memory byte 3 - k. |
| `ByteOrder.SwapU16Involution` | MeshConv.cpp:30-40 | Swapping any of the 65536 values twice gives it back. |
| `ByteOrder.SwapF32Involution` | MeshConv.cpp:16-28 | Swapping any float bit pattern twice gives it back, NaN patterns included. |
| `ByteOrder.PutU16` | MeshConv.cpp:98-103 | A u16 swapped and stored by the little-endian writer is the value's big-endian (canonical) bytes. |
| `ByteOrder.PutF32` | MeshConv.cpp:56-69 | A float swapped and stored by the little-endian writer is its bytes most significant first. |
| `ByteOrder.LoadCanonicalU16` | MeshReader.cpp:94-97 | Loading canonical bytes without a swap gives the value on a big-endian host and the swapped value on a little-endian one. |
| `ByteOrder.LoadCanonicalF32` | MeshReader.cpp:26-35 | The same for floats. |
| `MeshTypes.Vec3.Set` | Mesh.h:13-17 | The result has exactly the given x, y and z. |
| `MeshTypes.Vec2.Set` | Mesh.h:29-32 | The result has exactly the given x and y. |
| `MeshTypes.SubMesh.Set` | Mesh.h:40-48 | Both fields are the arguments modulo 2^16, so each is at most 65535; in-range arguments are kept unchanged. |
| `MeshTypes.NewMesh` | Mesh.h:50-71 | The constructor nulls vertices, texcoord, normals and subMeshes; indices and every count keep their previous (indeterminate) value. |
| `MeshWriter.CopyData3` | MeshConv.cpp:63-69 | Twelve bytes; a canonical load of bytes 0-3, 4-7 and 8-11 gives back x, y and z. |
| `MeshWriter.CopyData2` | MeshConv.cpp:56-61 | Eight bytes; a canonical load of bytes 0-3 and 4-7 gives back x and y, and z is not written. |
| `MeshWriter.WriteData` | MeshConv.cpp:71-80 | n elements of element_size floats make 4 * element_size * n bytes. |
| `MeshWriter.WriteDataElements` | MeshConv.cpp:56-80 | Element i occupies its own slot of 4 * element_size bytes, holding x, y (and z), each swapped. |
| `MeshWriter.WriteHeader` | MeshConv.cpp:82-103 | Eight bytes whose four canonical u16 fields are the vertex total, face total and mesh count, each mod 2^16, then len_material. |
| `MeshWriter.WriteMaterialName` | MeshConv.cpp:110-115 | The name followed by one NUL: length + 1 bytes. |
| `MeshWriter.WritePositions` | MeshConv.cpp:117-122 | 12 bytes per vertex over all meshes. |
| `MeshWriter.WriteNormals` | MeshConv.cpp:124-129 | 12 bytes per vertex over all meshes. |
| `MeshWriter.WriteTexCoord` | MeshConv.cpp:131-137 | 8 bytes per vertex, counting only meshes with texture coordinates. |
| `MeshWriter.FaceIndicesEntry` | MeshConv.cpp:147-155 | Entry 3f + c of a mesh's index list (`FaceIndices`) is corner c of face f plus the running offset, mod 2^16. |
| `MeshWriter.GlobalIndicesBlock` | MeshConv.cpp:139-162 | Mesh i's index list sits at offset 3 × (faces before mesh i) of the global list, with the offset being the vertices before mesh i. |
| `MeshWriter.GlobalIndicesEntry` | MeshConv.cpp:139-162 | Global entry 3 × (faces before mesh i) + 3f + c is (vertices before mesh i + corner c of face f of mesh i) mod 2^16. |
| `MeshWriter.GlobalIndicesInRange` | MeshConv.cpp:139-162 | If local indices are in range and the vertex total is below 2^16, every global index is below the vertex total. |
| `MeshWriter.WriteIndices` | MeshConv.cpp:139-162 | Three u16 entries, six bytes, per face; the entries are the global indices, whose content `GlobalIndicesEntry` states. |
| `MeshWriter.SubMeshTable` | MeshConv.cpp:164-185 | One descriptor per mesh; the first starts at the given start, and descriptor i's size is mesh i's face count mod 2^16. |
| `MeshWriter.SubMeshTableStarts` | MeshConv.cpp:164-185 | Descriptor i starts at the face count of the meshes before it, mod 2^16. |
| `MeshWriter.SubMeshTableContiguous` | MeshConv.cpp:164-185 | Without wrap-around, each descriptor starts where the previous one ends. |
| `MeshWriter.SubMeshTableCovers` | MeshConv.cpp:164-185 | Without wrap-around, the last descriptor ends at the face total, which is header field 2. |
| `MeshWriter.WriteSubMeshes` | MeshConv.cpp:164-185 | Four bytes per mesh. |
| `MeshWriter.MaterialByte` | MeshConv.cpp:193 | mMaterialIndex - 1 truncated to 8 bits, for every reference: the byte plus one is the reference mod 256, so 1..256 map to 0..255 and 0 maps to 255. |
| `MeshWriter.WriteSubMeshMaterials` | MeshConv.cpp:187-200 | One byte per mesh, and byte i is mesh i's material byte. |
| `MeshWriter.MeshFileLayout` | MeshConv.cpp:235-242 | The file is the header (the four counts, the name field counting its NUL), the name and its NUL, the blocks, and one material byte per mesh last; its length is 9 + name + 24V + 8T + 6F + 5M bytes. |
| `MeshWriter.ConvertMesh` | MeshConv.cpp:223-253 | A failed import leaves an empty file. Otherwise the file has the layout's exact length. The return value is always false. |
| `MeshReader.ReadBytes` | MeshReader.cpp:29 | A read of n bytes succeeds exactly when n remain, and fails naming the block otherwise. |
| `MeshReader.ReadHeader` | MeshReader.cpp:66-67 | Six bytes read as three host-order u16 fields (n_vertices, n_faces, n_subMeshes). |
| `MeshReader.ReadVec3f` | MeshReader.cpp:26-42 | Consumes 4 * n_elements bytes and yields n_elements / 3 vectors. |
| `MeshReader.Vec3sOfElement` | MeshReader.cpp:31-39 | Vector k is floats 3k, 3k+1 and 3k+2 of the block. |
| `MeshReader.ReadVec2f` | MeshReader.cpp:44-59 | Consumes 4 * n_elements bytes and yields n_elements / 2 vectors, which are those bytes grouped in pairs of host-order floats. |
| `MeshReader.Vec2sOfElement` | MeshReader.cpp:49-56 | Vector k is floats 2k and 2k+1 of the block. |
| `MeshReader.ReadU16s` | MeshReader.cpp:94-97 | n indices from 2n bytes, each the host-order load of its two bytes. |
| `MeshReader.ReadSubMeshes` | MeshReader.cpp:103-115 | n_elements u16 values from 2 * n_elements bytes, paired into n_elements / 2 descriptors, which are those bytes' host-order values. |
| `MeshReader.SubMeshesOfElement` | MeshReader.cpp:110-115 | Descriptor k is the pair of u16 values 2k and 2k+1. |
| `MeshReader.ReadArrays` | MeshReader.cpp:79-108 | The blocks are read in order: positions, normals, texcoords, indices, submeshes. Each array is sized from the header. The read succeeds exactly when the bytes suffice. |
| `MeshReader.MeshRead` | MeshReader.cpp:61-118 | n_texcoord = n_normals = n_vertices. n_tris keeps its old value. Every array has its header-given length. |
| `MeshReader.ReadArraysSliced` | MeshReader.cpp:79-108 | Given enough bytes the read succeeds, and each array is its own consecutive slice of the body decoded: positions 12V bytes, normals 12V, texcoords 8V, indices 6F, descriptors 4S. |
| `MeshReader.MeshReadSliced` | MeshReader.cpp:61-118 | A successful mesh_read fills every array from its slice of the bytes after the six-byte header, as `ReadArraysSliced` lays them out. |
| `MeshReader.MeshReadVertices` | MeshReader.cpp:79-82 | The positions are the first 12V bytes after the six-byte header, grouped. |
| `MeshFormat.DecodeBlocks` | MeshReader.cpp:79-108 | The blocks after the name: success exactly when the bytes suffice; a short position block fails naming it. |
| `MeshFormat.DecodeMeshFile` | MeshConv.cpp:235-242 | Decodes the writer's layout. It succeeds exactly when the file is long enough for its header's counts; a short header or position block is reported as such; array sizes follow the header. |
| `MeshFormat.DecodePositions` | MeshConv.cpp:117-122 | Decoding the position block gives every mesh's positions in order. |
| `MeshFormat.DecodeNormals` | MeshConv.cpp:124-129 | Decoding the normal block gives every mesh's normals in order. |
| `MeshFormat.DecodeTexCoords` | MeshConv.cpp:131-137 | Decoding the texcoord block gives the (x, y) of every textured mesh's coordinates in order. |
| `MeshFormat.DecodeU16s` | MeshConv.cpp:150-157 | Decoding swapped-and-written u16 values gives them back. |
| `MeshFormat.DecodeSubMeshes` | MeshReader.cpp:104-115 | Pairing the canonical bytes of the written descriptor table recovers every (start, size) pair. |
| `MeshRoundTrip.HeaderFields` | MeshConv.cpp:235 | When the counts fit, the four decoded header fields are the vertex total, face total, mesh count and name length + 1. |
| `MeshRoundTrip.RoundTrip` | MeshConv.cpp:235-242 | For an encodable scene, decoding the writer's output recovers the name with its NUL, every attribute, the global indices, the descriptors and the material bytes. |
| `MeshRoundTrip.DecodedIndicesInRange` | MeshConv.cpp:139-162 | Every decoded index is below the decoded vertex count. |
| `MeshRoundTrip.DecodedSubMeshesTile` | MeshConv.cpp:164-185 | Decoded descriptors start at 0, are contiguous, and the last ends at the decoded triangle count. |
| `MeshRoundTrip.DecodedMaterials` | MeshConv.cpp:187-200 | Each decoded material byte is its mesh's reference minus one. |
| `MeshRoundTrip.UntexturedNotDecodable` | MeshConv.cpp:131-137 | If a mesh has vertices but no texture coordinates, the writer's output cannot be decoded. |
| `MeshReaderFinding.AsWrittenReadsNameAsPosition` | MeshReader.cpp:66-82 | On the writer's output, mesh_read's first x is built from the name-length field and the first two bytes of the name. |
| `MeshReaderFinding.AsWrittenMisreadsOrigin` | MeshReader.cpp:20-24 | A one-vertex scene at the origin is read back with a first position that is not the origin. |
| `MaterialFile.CStr` | MeshConv.cpp:323 | strlen: the longest NUL-free prefix, stopping at the first NUL. |
| `MaterialFile.TextureEntry` | MeshConv.cpp:343-349 | An entry is a length byte holding strlen + 1, then the name up to its first NUL, then one NUL. |
| `MaterialFile.WriteMaterial` | MeshConv.cpp:315-354 | The header is [strlen(path) + 1, numMaterials - 1], then the path with its NUL, then entries only for materials 1..n with a diffuse texture. |
| `MaterialFile.ReadEntries` | MeshConv.cpp:370-378 | Reads as many entries as the signed count says, none when it is not positive. A short read fails on the material block. |
| `MaterialFile.ReadMaterial` | MeshConv.cpp:356-379 | A two-byte header, a name of the announced length, then the announced number of entries. Truncation is reported per block. |
| `MaterialFile.EntriesRoundTrip` | MeshConv.cpp:331-378 | Reading the entries written for textured materials gives back each name with its NUL and consumes exactly those bytes. |
| `MaterialFile.EntriesShort` | MeshConv.cpp:331-378 | Asking for more entries than were written runs off the end. |
| `MaterialFile.RoundTrip` | MeshConv.cpp:315-379 | If every material has a texture, ReadMaterial consumes exactly WriteMaterial's bytes and recovers the path and every texture name. |
| `MaterialFile.ReadSucceedsIffAllTextured` | MeshConv.cpp:331-378 | ReadMaterial succeeds on WriteMaterial's output exactly when every non-default material has a diffuse texture. |
| `ObjText.IsSep` | objloader.cpp:190-192 | True exactly for space and tab. |
| `ObjText.ParseSep` | objloader.cpp:155-159 | Fails exactly when the token does not start with a blank. Otherwise it skips every leading blank and leaves none. |
| `ObjText.ParseSepOpt` | objloader.cpp:185-187 | Skips zero or more leading blanks and leaves none. |
| `ObjText.LastIndexOf` | objloader.cpp:82 | The position of the last occurrence, or none when the character is absent. |
| `ObjText.FilePath` | objloader.cpp:80-85 | The prefix before the last '/', or the whole name when there is no '/'. |
| `ObjText.Span` | objloader.cpp:155-159 | strspn: every character before the result is accepted, and the one at the result is not. |
| `ObjText.CSpan` | objloader.cpp:216-242 | strcspn: every character before the result is neither rejected nor NUL, and the one at the result is. |
| `ObjText.AtoiDecimal` | objloader.cpp:219 | atoi (`ObjText.Atoi`) reads back any integer written in decimal, up to the next non-digit. |
| `ObjIndex.FixInRange` | objloader.cpp:199-201 | `fix_v` (`ObjIndex.Fix`): indices 1..size and -size..-1 land in 0..size-1. Absolute i and relative i - size - 1 name the same element. |
| `ObjIndex.GetInt3` | objloader.cpp:216-242 | The position index is fix_v(atoi(token)). Only a prefix is consumed. Nothing is consumed only at an end character or the terminator. |
| `ObjIndex.GetInt3Forms` | objloader.cpp:214-242 | Each of `i`, `i/t`, `i//n`, `i/t/n` is read back as the corner it denotes, with -1 for missing parts. Reading stops at the following space, tab, CR or NUL. |
| `ObjIndex.LessIsLexicographic` | objloader.cpp:147-152 | operator< (`ObjIndex.Less`) is the lexicographic order on (v, vn, vt). |
| `ObjIndex.LessIsStrictTotalOrder` | objloader.cpp:147-152 | operator< is irreflexive and transitive. Two vertices are incomparable exactly when all three fields are equal. |
| `ObjIndex.AsWrittenFaceLoopStalls` | objloader.cpp:318-321 | At a '\r' one pass of the face loop consumes nothing and still pushes a corner. |
| `ObjIndex.FaceStep` | objloader.cpp:318-321 | One pass of the corner loop leaves a suffix of the token, and a strictly shorter one unless the token starts at NUL or CR. |
| `ObjIndex.ParseCorners` | objloader.cpp:315-322 | The corner loop ends only at NUL or CR, never having grown the token. |
| `ObjIndex.ParseFace` | objloader.cpp:315-322 | The face line fails exactly when no separator follows `f`. |
| `ObjIndex.ParseFaceRoundTrip` | objloader.cpp:315-322 | A face line written in any of the four spellings, ending at the line end or a CR, is read back as exactly its corners. |
| `ObjMesh.GetVertex` | objloader.cpp:359-375 | Returns the key's slot. That slot holds the key's position. The merge invariant is kept, and earlier slots are unchanged. |
| `ObjMesh.GetVertexCases` | objloader.cpp:359-375 | For the map insert (`ObjMesh.Insert`): a seen key changes nothing. A new key appends one position and takes the slot equal to the old position count. A normal or texcoord is appended only when its index is >= 0. |
| `ObjMesh.GetVertexIdempotent` | objloader.cpp:366-367 | Looking a key up again right after inserting it changes nothing. |
| `ObjMesh.Fan` | objloader.cpp:398-404 | A face of k corners gives k - 2 fan triangles. |
| `ObjMesh.FanOfCount` | objloader.cpp:398-410 | The number of fan triangles of a group (`ObjMesh.FanOf`) is the sum over faces of corners - 2. |
| `ObjMesh.AddTriangle` | objloader.cpp:399-403 | Three lookups add one triangle whose slots hold the positions of its three corners. |
| `ObjMesh.TriangulateFace` | objloader.cpp:394-404 | A face's triangles are (face[0], face[j-1], face[j]) for j from 2, each on slots holding those positions. |
| `ObjMesh.TriangulateGroup` | objloader.cpp:391-405 | Every face's fan, in order, with all slots in range and holding the right positions. |
| `ObjMesh.FlushFaceGroup` | objloader.cpp:379-428 | An empty group adds nothing. Otherwise exactly one primitive is appended with the current material and Σ(k - 2) triangles on in-range slots, and the group ends empty. |

## Left out

- The Assimp importer (`Importer::ReadFile`, `aiScene`, `aiMaterial::GetTexture`) is not modelled. The scene is an input datatype (`Scene.AiScene`) holding only the fields the converter reads. A material's texture is the name `GetTexture` would return.
- File streams, `printf`/`puts`, `MeshInfo`, `MaterialInfo`, `fsize`, `main` and `system("pause")` are left out. They are console and I/O plumbing. Section writers return the bytes they would append to the file.
- Float values and arithmetic are not modelled: `getFloat`, `getVec2f`, `getVec3f` (atof) and `loadMTL`, with its file reading and one-character prefix tests. Floats are opaque bit patterns only.
- The `ObjReader` constructor's line-reading loop is left out, along with the `shared_ptr`, `Primitive` and `TriangleMesh` ownership. The face loop of a single `f` line is modelled.
- `new`/`delete` memory management is left out, including `delete` instead of `delete[]` at MeshConv.cpp:79 and the fixed 256-byte buffers of `ReadMaterial`.
- MaterialFile.WriteMaterial: requires at most 128 materials and names of at most 126 bytes (`SidecarFits`), so every signed `char` length keeps its value. Overflow of those lengths is not modelled.
- ByteOrder.SwapF32: a float is moved bit for bit. An x87 build passes the swapped value through a floating-point register, which can quieten a signalling NaN: the pattern 0x3F80807F swaps to 0x7F80803F, a signalling NaN that may come back as 0x7FC0803F. That change is not modelled.
- MaterialFile.WriteMaterial: requires a scene. `main` calls it after a failed import too (MeshConv.cpp:420-421), and the source then dereferences a null scene (MeshConv.cpp:317, 324); that undefined behaviour is not modelled.
- MeshWriter.WriteNormals: requires one normal per vertex and only triangles (`Scene.WellFormed`). The converter relies on the importer's GenSmoothNormals and Triangulate flags for this and does not check it, apart from the assertion at MeshConv.cpp:149.
- MeshReader.ReadBytes: a short read fails with a `Truncated` error that names the block. In the source a short read leaves the buffer indeterminate, and that garbage is not modelled.
- MeshReader.MeshRead: the `out` mesh's earlier arrays are overwritten without being freed; that leak is not modelled.
- ObjIndex.ParseFace: the corner loop stops at '\r' as well as at the terminator (see Findings); the as-written loop that runs forever there is shown by `ObjIndex.AsWrittenFaceLoopStalls` only.
- ObjMesh.FlushFaceGroup: requires every face to have at least two corners and every corner index to be in range of the v, vt and vn lists (`ValidGroup`). Otherwise the source reads out of bounds, which is undefined behaviour and is not modelled.
- ObjText.Atoi: integers are unbounded, so `atoi` overflow on very long digit runs is not modelled.
- MeshTypes.NewMesh: indeterminate values are a parameter (`garbage`), not a modelled notion of uninitialised memory.

## Findings

| source | as written | input that shows it | evidently intended | confidence | as-written member | corrected member |
|---|---|---|---|---|---|---|
| MeshReader.cpp:20-24 | `header_t` has three u16 fields. `mesh_read` reads six bytes and then positions, but the converter writes four fields and then the NUL-terminated material name (MeshConv.cpp:97, 236). | A scene with one mesh holding one vertex at the origin, converted as "m" (material name "m.mat"). | Read the four-field header, skip the name, then read the blocks. | high; not executed | `MeshReaderFinding.AsWrittenMisreadsOrigin` | `MeshRoundTrip.RoundTrip` |
| objloader.cpp:318-321 | The corner loop runs while `token[0]` is non-zero. `getInt3` and `parseSepOpt` both stop at '\r', so the token never advances there. | The line `f 1 2 3` with a CRLF ending, read in text mode on a POSIX host. | Stop at the end of the line, as `getInt3` already treats '\r'. | medium; not executed | `ObjIndex.AsWrittenFaceLoopStalls` | `ObjIndex.ParseFaceRoundTrip` |
