/**
  The material sidecar of MeshConv.cpp: WriteMaterial writes a two-byte
  header (name length with its NUL, number of materials after the default
  one), the sidecar's own path with its NUL, then one length-prefixed entry
  per non-default material that has a diffuse texture. ReadMaterial reads it
  back assuming one entry per material. Lengths are C `char`s, signed here;
  the writer's preconditions keep them at most 127.
*/
module MaterialFile {
  import opened Wrappers
  import opened ByteOrder
  import opened Scene
  import opened MeshReader
  import MeshWriter

  /** strlen: the bytes before the first NUL, or all of them. */
  function CStr(s: seq<u8>): (r: seq<u8>)
    ensures r <= s && 0 !in r
    ensures |r| < |s| ==> s[|r|] == 0
  {
    if s == [] || s[0] == 0 then [] else [s[0]] + CStr(s[1..])
  }

  /** A byte read back as a signed C `char`: the value whose cast gives the byte. */
  function SignedChar(b: u8): (r: int)
    ensures -0x80 <= r < 0x80
    ensures r % 0x100 == b
  {
    if b < 0x80 then b else b - 0x100
  }

  /** istream::read with a signed count: a negative count reads nothing. */
  function ReadCount(n: int): (r: nat)
    ensures n <= 0 ==> r == 0
    ensures n >= 0 ==> r == n
  {
    if n < 0 then 0 else n
  }

  /** The longest C string a signed `char` length (with its NUL) can describe. */
  const MaxName := 0x7E

  /** The path of the sidecar, filename + ".mat" (MeshConv.cpp:321). */
  function SidecarPath(filename: seq<u8>): seq<u8> {
    filename + MeshWriter.MatSuffix
  }

  /** What WriteMaterial needs so that every `char` it writes keeps its value. */
  predicate SidecarFits(scene: AiScene, filename: seq<u8>) {
    && 1 <= |scene.materials| <= 0x80
    && |CStr(SidecarPath(filename))| <= MaxName
    && forall m | m in scene.materials && m.diffuse.Some? :: |CStr(m.diffuse.value)| <= MaxName
  }

  /** One texture entry (MeshConv.cpp:343-349): length with NUL, name, NUL. */
  function TextureEntry(tex: seq<u8>): (r: seq<u8>)
    requires |CStr(tex)| <= MaxName
    ensures |r| == |CStr(tex)| + 2
    ensures r[0] == |CStr(tex)| + 1 && r[1 .. |r| - 1] == CStr(tex) && r[|r| - 1] == 0
  {
    var name := CStr(tex);
    [|name| + 1] + name + [0]
  }

  /** The entries of the materials loop (MeshConv.cpp:331-351), textured materials only. */
  function TextureEntries(materials: seq<AiMaterial>): (r: seq<u8>)
    requires forall m | m in materials && m.diffuse.Some? :: |CStr(m.diffuse.value)| <= MaxName
    ensures materials == [] ==> r == []
  {
    if materials == [] then []
    else
      var rest := TextureEntries(materials[1..]);
      match materials[0].diffuse
      case None => rest
      case Some(tex) => TextureEntry(tex) + rest
  }

  /** WriteMaterial (MeshConv.cpp:315-354) on an already imported scene. */
  function WriteMaterial(scene: AiScene, filename: seq<u8>): (r: seq<u8>)
    requires SidecarFits(scene, filename)
    ensures |r| >= 3 && r[1] == |scene.materials| - 1
    ensures r[0] == |CStr(SidecarPath(filename))| + 1
    ensures r[2..] == CStr(SidecarPath(filename)) + [0] + TextureEntries(scene.materials[1..])
  {
    var name := CStr(SidecarPath(filename));
    [|name| + 1, |scene.materials| - 1] + name + [0] + TextureEntries(scene.materials[1..])
  }

  /** The layout of WriteMaterial's output, as the reader walks it. */
  lemma {:induction false} WriteMaterialLayout(scene: AiScene, filename: seq<u8>)
    requires SidecarFits(scene, filename)
    ensures var path := CStr(SidecarPath(filename));
      WriteMaterial(scene, filename)
        == [|path| + 1, |scene.materials| - 1] + (path + [0]) + TextureEntries(scene.materials[1..])
  {
  }

  /** What ReadMaterial recovers: the sidecar's name and one texture name per entry, NULs kept. */
  datatype Sidecar = Sidecar(name: seq<u8>, textures: seq<seq<u8>>)

  /** The entries loop of ReadMaterial (MeshConv.cpp:370-378): n entries, none when n <= 0. */
  function ReadEntries(b: seq<u8>, n: int): (r: Result<(seq<seq<u8>>, seq<u8>), ReadError>)
    decreases n
    ensures r.Failure? ==> r.error == Truncated(MaterialBlock)
    ensures r.Success? ==> |r.value.0| == ReadCount(n) && IsSuffix(r.value.1, b)
    ensures n <= 0 ==> r == Success(([], b))
  {
    if n <= 0 then Success(([], b))
    else
      var (size, b1) :- ReadBytes(b, 1, MaterialBlock);
      var (tex, b2) :- ReadBytes(b1, ReadCount(SignedChar(size[0])), MaterialBlock);
      var (rest, b3) :- ReadEntries(b2, n - 1);
      SuffixOfDrop(b, 1 + |tex|, b3);
      Success(([tex] + rest, b3))
  }

  /** c is what remains of b after some bytes at its front. */
  predicate IsSuffix(c: seq<u8>, b: seq<u8>) {
    |c| <= |b| && c == b[|b| - |c|..]
  }

  /** A suffix of what remains after dropping k bytes is a suffix of the whole. */
  lemma SuffixOfDrop(b: seq<u8>, k: nat, c: seq<u8>)
    requires k <= |b| && IsSuffix(c, b[k..])
    ensures IsSuffix(c, b)
  {
    assert b[k..][|b| - k - |c|..] == b[|b| - |c|..];
  }

  /**
    ReadMaterial (MeshConv.cpp:356-379): the header, the name, then as many
    entries as the header's material count says. The result also carries the
    bytes left unread.
  */
  function ReadMaterial(b: seq<u8>): (r: Result<(Sidecar, seq<u8>), ReadError>)
    ensures |b| < 2 ==> r == Failure(Truncated(HeaderBlock))
    ensures 2 <= |b| && |b| - 2 < ReadCount(SignedChar(b[0])) ==> r == Failure(Truncated(NameBlock))
    ensures r.Success? ==>
      && 2 + ReadCount(SignedChar(b[0])) <= |b|
      && r.value.0.name == b[2..2 + ReadCount(SignedChar(b[0]))]
      && |r.value.0.textures| == ReadCount(SignedChar(b[1]))
  {
    var (header, b1) :- ReadBytes(b, 2, HeaderBlock);
    var (name, b2) :- ReadBytes(b1, ReadCount(SignedChar(header[0])), NameBlock);
    var (textures, rest) :- ReadEntries(b2, SignedChar(header[1]));
    Success((Sidecar(name, textures), rest))
  }

  /** Every material after the default one has a diffuse texture. */
  predicate AllTexturedFrom1(materials: seq<AiMaterial>) {
    forall i :: 1 <= i < |materials| ==> materials[i].diffuse.Some?
  }

  /** The texture names a reader should recover, each with its NUL, in material order. */
  function TextureNames(materials: seq<AiMaterial>): seq<seq<u8>> {
    if materials == [] then []
    else
      var rest := TextureNames(materials[1..]);
      match materials[0].diffuse
      case None => rest
      case Some(tex) => [CStr(tex) + [0]] + rest
  }

  function TexturedCount(materials: seq<AiMaterial>): nat {
    |TextureNames(materials)|
  }

  /** Reading one written entry, then the rest: the entry's name with its NUL comes first. */
  lemma {:induction false} EntryStep(tex: seq<u8>, tail: seq<u8>, n: int)
    requires |CStr(tex)| <= MaxName && n > 0
    ensures ReadEntries(tail, n - 1).Failure? ==> ReadEntries(TextureEntry(tex) + tail, n) == ReadEntries(tail, n - 1)
    ensures ReadEntries(tail, n - 1).Success? ==>
      ReadEntries(TextureEntry(tex) + tail, n)
        == Success(([CStr(tex) + [0]] + ReadEntries(tail, n - 1).value.0, ReadEntries(tail, n - 1).value.1))
  {
    var name := CStr(tex);
    var b := TextureEntry(tex) + tail;
    assert b == [|name| + 1] + ((name + [0]) + tail);
    assert SignedChar(b[0]) == |name| + 1;
    assert b[1..][..|name| + 1] == name + [0];
    assert b[1..][|name| + 1..] == tail;
  }

  /** The entries and names of a list that starts with a textured material. */
  lemma TexturedCons(materials: seq<AiMaterial>)
    requires materials != [] && materials[0].diffuse.Some?
    requires forall m | m in materials && m.diffuse.Some? :: |CStr(m.diffuse.value)| <= MaxName
    ensures |CStr(materials[0].diffuse.value)| <= MaxName
    ensures forall m | m in materials[1..] && m.diffuse.Some? :: |CStr(m.diffuse.value)| <= MaxName
    ensures TextureEntries(materials) == TextureEntry(materials[0].diffuse.value) + TextureEntries(materials[1..])
    ensures TextureNames(materials) == [CStr(materials[0].diffuse.value) + [0]] + TextureNames(materials[1..])
    ensures TexturedCount(materials) == 1 + TexturedCount(materials[1..])
  {
    assert materials[0] in materials;
    assert forall m | m in materials[1..] :: m in materials;
  }

  lemma AppendAssoc(x: seq<u8>, y: seq<u8>, c: seq<u8>)
    ensures (x + y) + c == x + (y + c)
  {
  }

  /** A list that starts with an untextured material has the entries and names of its tail. */
  lemma UntexturedCons(materials: seq<AiMaterial>)
    requires materials != [] && materials[0].diffuse.None?
    requires forall m | m in materials && m.diffuse.Some? :: |CStr(m.diffuse.value)| <= MaxName
    ensures forall m | m in materials[1..] && m.diffuse.Some? :: |CStr(m.diffuse.value)| <= MaxName
    ensures TextureEntries(materials) == TextureEntries(materials[1..])
    ensures TexturedCount(materials) == TexturedCount(materials[1..])
  {
    assert forall m | m in materials[1..] :: m in materials;
  }

  /** Reading the entries written for textured materials gives back their names, and no more bytes. */
  lemma {:induction false} EntriesRoundTrip(materials: seq<AiMaterial>, c: seq<u8>)
    requires forall m | m in materials :: m.diffuse.Some? && |CStr(m.diffuse.value)| <= MaxName
    ensures ReadEntries(TextureEntries(materials) + c, |materials|) == Success((TextureNames(materials), c))
  {
    if materials != [] {
      var tex := materials[0].diffuse.value;
      assert materials[0] in materials;
      assert forall m | m in materials[1..] :: m in materials;
      var tail := TextureEntries(materials[1..]) + c;
      EntriesRoundTrip(materials[1..], c);
      EntryStep(tex, tail, |materials|);
      TexturedCons(materials);
      AppendAssoc(TextureEntry(tex), TextureEntries(materials[1..]), c);
    }
  }

  /**
    The entries of a material list are self-delimiting: asking for more
    entries than were written runs off the end.
  */
  lemma {:induction false} EntriesShort(materials: seq<AiMaterial>, n: int)
    requires forall m | m in materials && m.diffuse.Some? :: |CStr(m.diffuse.value)| <= MaxName
    requires n > TexturedCount(materials)
    ensures ReadEntries(TextureEntries(materials), n) == Failure(Truncated(MaterialBlock))
  {
    if materials != [] {
      var tail := materials[1..];
      if materials[0].diffuse.Some? {
        TexturedCons(materials);
        EntriesShort(tail, n - 1);
        ShortStep(materials[0].diffuse.value, TextureEntries(tail), n);
      } else {
        UntexturedCons(materials);
        EntriesShort(tail, n);
      }
    }
  }

  /** An entry in front of a block too short for n - 1 entries leaves it too short for n. */
  lemma ShortStep(tex: seq<u8>, tail: seq<u8>, n: int)
    requires |CStr(tex)| <= MaxName && n > 0
    requires ReadEntries(tail, n - 1) == Failure(Truncated(MaterialBlock))
    ensures ReadEntries(TextureEntry(tex) + tail, n) == Failure(Truncated(MaterialBlock))
  {
    EntryStep(tex, tail, n);
  }

  lemma {:induction false} AllTexturedCount(materials: seq<AiMaterial>)
    ensures (forall m | m in materials :: m.diffuse.Some?) <==> TexturedCount(materials) == |materials|
    ensures TexturedCount(materials) <= |materials|
  {
    if materials != [] {
      AllTexturedCount(materials[1..]);
      assert forall m | m in materials[1..] :: m in materials;
      assert materials == [materials[0]] + materials[1..];
    }
  }

  /** Reading a header, a name of the length it announces, then the entries. */
  lemma {:induction false} ReadMaterialStep(path: seq<u8>, k: nat, entries: seq<u8>)
    requires |path| <= MaxName && k < 0x80
    ensures var b := [|path| + 1, k] + (path + [0]) + entries;
      && (ReadEntries(entries, k).Failure? ==> ReadMaterial(b) == Failure(ReadEntries(entries, k).error))
      && (ReadEntries(entries, k).Success? ==>
            ReadMaterial(b) == Success((Sidecar(path + [0], ReadEntries(entries, k).value.0), ReadEntries(entries, k).value.1)))
  {
    var b := [|path| + 1, k] + (path + [0]) + entries;
    assert SignedChar(b[0]) == |path| + 1;
    assert SignedChar(b[1]) == k;
    assert b[2..][..|path| + 1] == path + [0];
    assert b[2..][|path| + 1..] == entries;
  }

  /**
    When every non-default material has a diffuse texture, ReadMaterial reads
    exactly the bytes WriteMaterial wrote and recovers the sidecar's path and
    every texture name.
  */
  lemma {:induction false} RoundTrip(scene: AiScene, filename: seq<u8>)
    requires SidecarFits(scene, filename) && AllTexturedFrom1(scene.materials)
    ensures var path := CStr(SidecarPath(filename));
      ReadMaterial(WriteMaterial(scene, filename))
        == Success((Sidecar(path + [0], TextureNames(scene.materials[1..])), []))
    ensures CStr(ReadMaterial(WriteMaterial(scene, filename)).value.0.name) == CStr(SidecarPath(filename))
  {
    var path := CStr(SidecarPath(filename));
    var mats := scene.materials[1..];
    TailTextured(scene, filename);
    EntriesRoundTrip(mats, []);
    assert TextureEntries(mats) + [] == TextureEntries(mats);
    ReadMaterialStep(path, |mats|, TextureEntries(mats));
    WriteMaterialLayout(scene, filename);
    CStrOfTerminated(path);
  }

  /** Every material after the default one has a texture name that fits an entry. */
  lemma TailTextured(scene: AiScene, filename: seq<u8>)
    requires SidecarFits(scene, filename) && AllTexturedFrom1(scene.materials)
    ensures forall m | m in scene.materials[1..] :: m.diffuse.Some? && |CStr(m.diffuse.value)| <= MaxName
  {
    var mats := scene.materials[1..];
    forall m | m in mats ensures m.diffuse.Some? && |CStr(m.diffuse.value)| <= MaxName {
      var i :| 0 <= i < |mats| && mats[i] == m;
      assert scene.materials[i + 1] == m;
    }
  }

  /** A string without NUL, terminated, reads back as itself. */
  lemma {:induction false} CStrOfTerminated(s: seq<u8>)
    requires 0 !in s
    ensures CStr(s + [0]) == s
  {
    if s != [] {
      assert (s + [0])[1..] == s[1..] + [0];
      CStrOfTerminated(s[1..]);
    }
  }

  /**
    ReadMaterial succeeds on WriteMaterial's output exactly when every
    non-default material has a diffuse texture: a material without one
    leaves the reader an entry short, and its last read runs off the end.
  */
  lemma {:induction false} ReadSucceedsIffAllTextured(scene: AiScene, filename: seq<u8>)
    requires SidecarFits(scene, filename)
    ensures ReadMaterial(WriteMaterial(scene, filename)).Success? <==> AllTexturedFrom1(scene.materials)
    ensures !AllTexturedFrom1(scene.materials) ==>
      ReadMaterial(WriteMaterial(scene, filename)) == Failure(Truncated(MaterialBlock))
  {
    if AllTexturedFrom1(scene.materials) {
      RoundTrip(scene, filename);
    } else {
      UntexturedRunsShort(scene, filename);
    }
  }

  /** A non-default material without a texture makes the reader's last entry run off the end. */
  lemma UntexturedRunsShort(scene: AiScene, filename: seq<u8>)
    requires SidecarFits(scene, filename) && !AllTexturedFrom1(scene.materials)
    ensures ReadMaterial(WriteMaterial(scene, filename)) == Failure(Truncated(MaterialBlock))
  {
    var path := CStr(SidecarPath(filename));
    var mats := scene.materials[1..];
    var i :| 1 <= i < |scene.materials| && scene.materials[i].diffuse.None?;
    assert mats[i - 1] in mats;
    AllTexturedCount(mats);
    assert TexturedCount(mats) < |mats|;
    assert forall m | m in mats :: m in scene.materials;
    EntriesShort(mats, |mats|);
    ReadMaterialStep(path, |mats|, TextureEntries(mats));
    WriteMaterialLayout(scene, filename);
  }
}
