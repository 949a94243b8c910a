/** `ChunkVertices` of `src/ChunkVertices.cpp`: the loops that fill a vertex list, and the
    packing of a vertex into one 32-bit word. */
module ChunkVertices {
  import opened Bits
  import opened World
  import opened ChunkMesh

  type bit = n: nat | n < 2

  /** A corner of a unit cube with its texture coordinates. */
  datatype Corner = Corner(x: bit, y: bit, z: bit, u: bit, v: bit)

  /** The six corners of the two triangles of a face. */
  function FaceCorners(d: Dir): (r: seq<Corner>)
    ensures |r| == 6
  {
    match d
    case Front => [
      Corner(0, 0, 0, 1, 0), Corner(1, 1, 0, 0, 1), Corner(1, 0, 0, 0, 0),
      Corner(1, 1, 0, 0, 1), Corner(0, 0, 0, 1, 0), Corner(0, 1, 0, 1, 1)]
    case Back => [
      Corner(0, 0, 1, 0, 0), Corner(1, 0, 1, 1, 0), Corner(1, 1, 1, 1, 1),
      Corner(1, 1, 1, 1, 1), Corner(0, 1, 1, 0, 1), Corner(0, 0, 1, 0, 0)]
    case Left => [
      Corner(0, 1, 1, 1, 1), Corner(0, 1, 0, 0, 1), Corner(0, 0, 0, 0, 0),
      Corner(0, 0, 0, 0, 0), Corner(0, 0, 1, 1, 0), Corner(0, 1, 1, 1, 1)]
    case Right => [
      Corner(1, 1, 1, 0, 1), Corner(1, 0, 0, 1, 0), Corner(1, 1, 0, 1, 1),
      Corner(1, 0, 0, 1, 0), Corner(1, 1, 1, 0, 1), Corner(1, 0, 1, 0, 0)]
    case Top => [
      Corner(0, 1, 0, 1, 0), Corner(1, 1, 1, 0, 1), Corner(1, 1, 0, 0, 0),
      Corner(0, 1, 1, 1, 1), Corner(1, 1, 1, 0, 1), Corner(0, 1, 0, 1, 0)]
    case Bottom => [
      Corner(0, 0, 0, 1, 1), Corner(1, 0, 0, 0, 1), Corner(1, 0, 1, 0, 0),
      Corner(1, 0, 1, 0, 0), Corner(0, 0, 1, 1, 0), Corner(0, 0, 0, 1, 1)]
  }

  /** The sixth number of every vertex of a face. */
  function Normal(d: Dir): (r: nat)
    ensures r <= 5
  {
    match d
    case Front => 0
    case Back => 1
    case Left => 2
    case Right => 3
    case Bottom => 4
    case Top => 5
  }

  // ----- textures (`src/Blocktype.h`)

  datatype Textures = Textures(top: nat, side: nat, bottom: nat)

  function Same(t: nat): Textures {
    Textures(t, t, t)
  }

  /** `textures_umap.at(getBlockType(bt))`, for a block that is not air. */
  function BlockTextures(bt: byte): (r: Textures)
    requires bt != 0
    ensures r.top <= 21 && r.side <= 21 && r.bottom <= 21
  {
    if bt == 1 then Textures(1, 2, 3)
    else if bt == 2 then Same(3)
    else if bt == 3 then Same(4)
    else if bt == 4 then Textures(6, 5, 6)
    else if 5 <= bt <= 9 then Same(bt + 2)
    else if 10 <= bt <= 15 then Same(bt + 2)
    else if bt == 16 then Textures(18, 19, 20)
    else if bt == 17 then Textures(12, 21, 12)
    else Same(0)
  }

  /** `findBlockTextures`. */
  function FaceTexture(bt: byte, d: Dir): (r: nat)
    requires bt != 0
    ensures r <= 21
  {
    match d
    case Top => BlockTextures(bt).top
    case Bottom => BlockTextures(bt).bottom
    case _ => BlockTextures(bt).side
  }

  // ----- packing

  /** What one vertex of a mesh says. */
  datatype Vertex = Vertex(x: nat, y: nat, z: nat, u: nat, v: nat, normal: nat, texture: nat)

  function CornerVertex(f: Face, k: nat): Vertex
    requires k < 6 && f.block != 0 && PositionToIndex(f.cell) >= 0
  {
    var c := FaceCorners(f.dir)[k];
    Vertex(c.x + f.cell.x, c.y + f.cell.y, c.z + f.cell.z, c.u, c.v, Normal(f.dir), FaceTexture(f.block, f.dir))
  }

  /** The masks and shifts of `loadFaceVertices`; the fields share no bit, so `|` is `+`. */
  function Pack(v: Vertex): (w: nat)
    ensures w < 0x200_0000
  {
    v.x % 32 + v.y % 32 * 0x20 + v.z % 32 * 0x400 + v.u % 2 * 0x8000 + v.v % 2 * 0x1_0000
    + v.normal % 8 * 0x2_0000 + v.texture % 32 * 0x10_0000
  }

  /** Reading the fields back, as the shader does. */
  function Unpack(w: nat): Vertex {
    Vertex(w % 0x20, w / 0x20 % 0x20, w / 0x400 % 0x20, w / 0x8000 % 2, w / 0x1_0000 % 2,
      w / 0x2_0000 % 8, w / 0x10_0000 % 0x20)
  }

  lemma CornerFits(f: Face, k: nat)
    requires k < 6 && f.block != 0 && PositionToIndex(f.cell) >= 0
    ensures Fits(CornerVertex(f, k))
  {
  }

  predicate Fits(v: Vertex) {
    v.x < 32 && v.y < 32 && v.z < 32 && v.u < 2 && v.v < 2 && v.normal < 8 && v.texture < 32
  }

  lemma PackNested(v: Vertex, r1: nat, r2: nat, r3: nat, r4: nat, r5: nat)
    requires Fits(v)
    requires r5 == v.normal + 8 * v.texture && r4 == v.v + 2 * r5 && r3 == v.u + 2 * r4
    requires r2 == v.z + 32 * r3 && r1 == v.y + 32 * r2
    ensures Pack(v) == v.x + 32 * r1
  {
    assert v.x % 32 == v.x && v.y % 32 == v.y && v.z % 32 == v.z && v.texture % 32 == v.texture;
    assert v.u % 2 == v.u && v.v % 2 == v.v && v.normal % 8 == v.normal;
  }

  lemma ShiftFive(w: nat, a: nat, r: nat)
    requires a < 32 && w == a + 32 * r
    ensures w % 32 == a && w / 32 == r
  {
  }

  lemma ShiftOne(w: nat, a: nat, r: nat)
    requires a < 2 && w == a + 2 * r
    ensures w % 2 == a && w / 2 == r
  {
  }

  lemma ShiftThree(w: nat, a: nat, r: nat)
    requires a < 8 && w == a + 8 * r
    ensures w % 8 == a && w / 8 == r
  {
  }

  lemma Shifts(w: nat)
    ensures w / 0x400 == w / 0x20 / 32 && w / 0x8000 == w / 0x400 / 32
    ensures w / 0x1_0000 == w / 0x8000 / 2 && w / 0x2_0000 == w / 0x1_0000 / 2
    ensures w / 0x10_0000 == w / 0x2_0000 / 8
  {
  }

  lemma UnpackFields(v: Vertex)
    requires Fits(v)
    ensures Unpack(Pack(v)) == v
  {
    var w := Pack(v);
    var r5 := v.normal + 8 * v.texture;
    var r4 := v.v + 2 * r5;
    var r3 := v.u + 2 * r4;
    var r2 := v.z + 32 * r3;
    var r1 := v.y + 32 * r2;
    PackNested(v, r1, r2, r3, r4, r5);
    UnpackNested(w, v, r1, r2, r3, r4, r5);
  }

  lemma UnpackNested(w: nat, v: Vertex, r1: nat, r2: nat, r3: nat, r4: nat, r5: nat)
    requires Fits(v) && w == v.x + 32 * r1 && r1 == v.y + 32 * r2 && r2 == v.z + 32 * r3
    requires r3 == v.u + 2 * r4 && r4 == v.v + 2 * r5 && r5 == v.normal + 8 * v.texture
    ensures Unpack(w) == v
  {
    ShiftFive(w, v.x, r1);
    ShiftFive(r1, v.y, r2);
    ShiftFive(r2, v.z, r3);
    ShiftOne(r3, v.u, r4);
    ShiftOne(r4, v.v, r5);
    ShiftThree(r5, v.normal, v.texture);
    ShiftFive(v.texture, v.texture, 0);
    Shifts(w);
  }

  /** Nothing is lost in packing: every field of a mesh vertex fits its bits. */
  lemma UnpackPack(f: Face, k: nat)
    requires k < 6 && f.block != 0 && PositionToIndex(f.cell) >= 0
    ensures Unpack(Pack(CornerVertex(f, k))) == CornerVertex(f, k)
  {
    CornerFits(f, k);
    UnpackFields(CornerVertex(f, k));
  }

  // ----- the loops

  function FaceWords(f: Face): (r: seq<nat>)
    requires f.block != 0 && PositionToIndex(f.cell) >= 0
    ensures |r| == 6
  {
    seq(6, k requires 0 <= k < 6 => Pack(CornerVertex(f, k)))
  }

  predicate Solid(fs: seq<Face>) {
    forall i :: 0 <= i < |fs| ==> fs[i].block != 0 && PositionToIndex(fs[i].cell) >= 0
  }

  function Words(fs: seq<Face>): seq<nat>
    requires Solid(fs)
  {
    if fs == [] then [] else Words(fs[..|fs| - 1]) + FaceWords(fs[|fs| - 1])
  }

  lemma {:induction false} WordsAppend(a: seq<Face>, b: seq<Face>)
    requires Solid(a) && Solid(b)
    ensures Solid(a + b) && Words(a + b) == Words(a) + Words(b)
    decreases |b|
  {
    if b == [] {
      assert a + b == a;
    } else {
      var c := b[..|b| - 1];
      WordsAppend(a, c);
      assert (a + b)[..|a + b| - 1] == a + c;
      Assoc(Words(a), Words(c), FaceWords(b[|b| - 1]));
    }
  }

  lemma CellFacesSolid(chunks: Chunks, p: IVec3, c: IVec3)
    requires PositionToIndex(c) >= 0
    ensures Solid(CellFaces(chunks, p, c))
  {
    FaceIfSolid(chunks, p, c, Front);
    FaceIfSolid(chunks, p, c, Back);
    FaceIfSolid(chunks, p, c, Left);
    FaceIfSolid(chunks, p, c, Right);
    FaceIfSolid(chunks, p, c, Top);
    FaceIfSolid(chunks, p, c, Bottom);
    var sides := FaceIf(chunks, p, c, Front) + FaceIf(chunks, p, c, Back) + FaceIf(chunks, p, c, Left);
    assert Solid(sides);
    assert Solid(sides + FaceIf(chunks, p, c, Right) + FaceIf(chunks, p, c, Top));
  }

  lemma FaceIfSolid(chunks: Chunks, p: IVec3, c: IVec3, d: Dir)
    requires PositionToIndex(c) >= 0
    ensures Solid(FaceIf(chunks, p, c, d))
  {
  }

  lemma {:induction false} FacesSolid(chunks: Chunks, p: IVec3, n: nat, fs: seq<Face>)
    requires n <= CHUNK_SIZE && fs == FacesUpTo(chunks, p, n)
    ensures Solid(fs)
  {
    if n > 0 {
      FacesSolid(chunks, p, n - 1, FacesUpTo(chunks, p, n - 1));
      CellFacesSolid(chunks, p, CellOf(n - 1));
    }
  }

  /** The vertex list of the chunk at `p`. */
  function MeshWords(chunks: Chunks, p: IVec3): seq<nat> {
    FacesSolid(chunks, p, CHUNK_SIZE, Faces(chunks, p));
    Words(Faces(chunks, p))
  }

  /** What a worker computes for the chunk at `p` in a given world. */
  function Mesh(chunks: Chunks, p: IVec3): seq<nat> {
    MeshWords(Snapshot(chunks, p), p)
  }

  /** At a chunk position that is the mesh of the whole world. */
  lemma MeshIsWorldMesh(chunks: Chunks, p: IVec3)
    requires AlignedPos(p)
    ensures Mesh(chunks, p) == MeshWords(chunks, p)
  {
    SnapshotSuffices(chunks, p);
  }

  class ChunkVertices {
    var chunk_vertices: seq<nat>

    constructor ()
      ensures chunk_vertices == []
    {
      chunk_vertices := [];
    }

    /** `loadFaceVertices`: push the six packed corners of a face. */
    method LoadFaceVertices(f: Face)
      requires f.block != 0 && PositionToIndex(f.cell) >= 0
      modifies this
      ensures chunk_vertices == old(chunk_vertices) + FaceWords(f)
    {
      for i := 0 to 6
        invariant chunk_vertices == old(chunk_vertices) + FaceWords(f)[..i]
      {
        var packed := Pack(CornerVertex(f, i));
        chunk_vertices := chunk_vertices + [packed];
      }
    }

    /** One of the six tests of a cell: if the neighbour can be seen through, the face shows. */
    method TryFace(chunks: Chunks, p: IVec3, c: IVec3, d: Dir)
      requires PositionToIndex(c) >= 0 && BlockAt(chunks, Add(p, c)) != 0
      modifies this
      ensures Solid(FaceIf(chunks, p, c, d))
      ensures chunk_vertices == old(chunk_vertices) + Words(FaceIf(chunks, p, c, d))
    {
      var bt := BlockAt(chunks, Add(Add(p, c), Offset(d)));
      if bt == 0 || bt == 5 || bt == 6 {
        var f := Face(c, d, BlockAt(chunks, Add(p, c)));
        LoadFaceVertices(f);
        assert Words([f]) == Words([]) + FaceWords(f) == FaceWords(f);
      }
    }

    /** The body of the three loops: a cell adds its visible faces, in a fixed order. */
    method MeshCell(chunks: Chunks, p: IVec3, c: IVec3)
      requires PositionToIndex(c) >= 0
      modifies this
      ensures Solid(CellFaces(chunks, p, c))
      ensures chunk_vertices == old(chunk_vertices) + Words(CellFaces(chunks, p, c))
    {
      CellFacesSolid(chunks, p, c);
      if BlockAt(chunks, Add(p, c)) == 0 {
        assert CellFaces(chunks, p, c) == [];
        return;
      }
      ghost var before := chunk_vertices;
      TryFace(chunks, p, c, Front);
      TryFace(chunks, p, c, Back);
      TryFace(chunks, p, c, Left);
      TryFace(chunks, p, c, Right);
      TryFace(chunks, p, c, Top);
      TryFace(chunks, p, c, Bottom);
      WordsOfCell(before, chunks, p, c);
    }

    /** `createChunkVertices`: the seven chunks around `worldpos` are copied under the shared
        lock, and then every cell is visited, x fastest. */
    method CreateChunkVertices(world: Chunks, worldpos: IVec3)
      modifies this
      ensures chunk_vertices == old(chunk_vertices) + Mesh(world, worldpos)
    {
      var neighbor_chunks := TakeSnapshot(world, worldpos);
      ghost var before, n := chunk_vertices, 0;
      assert before == before + Words(FacesUpTo(neighbor_chunks, worldpos, 0));
      for z := 0 to 16
        invariant n == 256 * z
        invariant MeshedUpTo(before, neighbor_chunks, worldpos, n, chunk_vertices)
      {
        for y := 0 to 16
          invariant n == 256 * z + 16 * y
          invariant MeshedUpTo(before, neighbor_chunks, worldpos, n, chunk_vertices)
        {
          for x := 0 to 16
            invariant n == 256 * z + 16 * y + x
            invariant MeshedUpTo(before, neighbor_chunks, worldpos, n, chunk_vertices)
          {
            CellOfLoop(x, y, z);
            ghost var mid := chunk_vertices;
            MeshCell(neighbor_chunks, worldpos, IVec3(x, y, z));
            MeshedStep(before, neighbor_chunks, worldpos, n, IVec3(x, y, z), mid, chunk_vertices);
            n := n + 1;
          }
        }
      }
      MeshedAll(before, world, worldpos, chunk_vertices);
    }
  }

  lemma MeshedAll(before: seq<nat>, world: Chunks, p: IVec3, words: seq<nat>)
    requires MeshedUpTo(before, Snapshot(world, p), p, CHUNK_SIZE, words)
    ensures words == before + Mesh(world, p)
  {
  }

  lemma CellOfLoop(x: nat, y: nat, z: nat)
    requires x < 16 && y < 16 && z < 16
    ensures 256 * z + 16 * y + x < CHUNK_SIZE && CellOf(256 * z + 16 * y + x) == IVec3(x, y, z)
  {
    var i := 256 * z + 16 * y + x;
    assert i == 16 * (16 * z + y) + x && i / 16 == 16 * z + y;
    assert i == 256 * z + (16 * y + x) && i / 256 == z;
  }

  ghost predicate MeshedUpTo(before: seq<nat>, chunks: Chunks, p: IVec3, n: nat, words: seq<nat>) {
    n <= CHUNK_SIZE && Solid(FacesUpTo(chunks, p, n)) && words == before + Words(FacesUpTo(chunks, p, n))
  }

  lemma MeshedStep(before: seq<nat>, chunks: Chunks, p: IVec3, n: nat, c: IVec3, mid: seq<nat>, words: seq<nat>)
    requires n < CHUNK_SIZE && c == CellOf(n) && MeshedUpTo(before, chunks, p, n, mid)
    requires Solid(CellFaces(chunks, p, c)) && words == mid + Words(CellFaces(chunks, p, c))
    ensures MeshedUpTo(before, chunks, p, n + 1, words)
  {
    var fs, cell := FacesUpTo(chunks, p, n), CellFaces(chunks, p, c);
    WordsAppend(fs, cell);
    Assoc(before, Words(fs), Words(cell));
  }

  lemma WordsOfCell(before: seq<nat>, chunks: Chunks, p: IVec3, c: IVec3)
    requires PositionToIndex(c) >= 0
    ensures Solid(CellFaces(chunks, p, c))
    ensures Solid(FaceIf(chunks, p, c, Front)) && Solid(FaceIf(chunks, p, c, Back)) && Solid(FaceIf(chunks, p, c, Left))
    ensures Solid(FaceIf(chunks, p, c, Right)) && Solid(FaceIf(chunks, p, c, Top)) &&
      Solid(FaceIf(chunks, p, c, Bottom))
    ensures before + Words(CellFaces(chunks, p, c)) ==
      before + Words(FaceIf(chunks, p, c, Front)) + Words(FaceIf(chunks, p, c, Back))
      + Words(FaceIf(chunks, p, c, Left)) + Words(FaceIf(chunks, p, c, Right))
      + Words(FaceIf(chunks, p, c, Top)) + Words(FaceIf(chunks, p, c, Bottom))
  {
    CellFacesSolid(chunks, p, c);
    WordsOfSix(before, FaceIf(chunks, p, c, Front), FaceIf(chunks, p, c, Back), FaceIf(chunks, p, c, Left),
      FaceIf(chunks, p, c, Right), FaceIf(chunks, p, c, Top), FaceIf(chunks, p, c, Bottom));
  }

  lemma WordsOfSix(w: seq<nat>, a: seq<Face>, b: seq<Face>, c: seq<Face>, d: seq<Face>, e: seq<Face>, f: seq<Face>)
    requires Solid(a) && Solid(b) && Solid(c) && Solid(d) && Solid(e) && Solid(f)
    ensures Solid(a + b + c + d + e + f)
    ensures w + Words(a + b + c + d + e + f) == w + Words(a) + Words(b) + Words(c) + Words(d) + Words(e) + Words(f)
  {
    AppendWords(w, a, b);
    AppendWords(w, a + b, c);
    AppendWords(w, a + b + c, d);
    AppendWords(w, a + b + c + d, e);
    AppendWords(w, a + b + c + d + e, f);
  }

  lemma AppendWords(w: seq<nat>, a: seq<Face>, b: seq<Face>)
    requires Solid(a) && Solid(b)
    ensures Solid(a + b) && w + Words(a + b) == w + Words(a) + Words(b)
  {
    WordsAppend(a, b);
    Assoc(w, Words(a), Words(b));
  }

  const SNAPSHOT_OFFSETS: seq<IVec3> := [
    IVec3(1, 0, 0), IVec3(-1, 0, 0), IVec3(0, 1, 0), IVec3(0, -1, 0),
    IVec3(0, 0, 1), IVec3(0, 0, -1), IVec3(0, 0, 0)]

  /** The first `i` positions looked up. */
  function LookedUp(p: IVec3, i: nat): set<IVec3>
    requires i <= 7
  {
    if i == 0 then {} else LookedUp(p, i - 1) + {Add(p, Times16(SNAPSHOT_OFFSETS[i - 1]))}
  }

  lemma AllLookedUp(p: IVec3)
    ensures LookedUp(p, 7) == Neighbours(p)
  {
    assert LookedUp(p, 1) == {IVec3(p.x + 16, p.y, p.z)};
    assert LookedUp(p, 2) == LookedUp(p, 1) + {IVec3(p.x - 16, p.y, p.z)};
    assert LookedUp(p, 3) == LookedUp(p, 2) + {IVec3(p.x, p.y + 16, p.z)};
    assert LookedUp(p, 4) == LookedUp(p, 3) + {IVec3(p.x, p.y - 16, p.z)};
    assert LookedUp(p, 5) == LookedUp(p, 4) + {IVec3(p.x, p.y, p.z + 16)};
    assert LookedUp(p, 6) == LookedUp(p, 5) + {IVec3(p.x, p.y, p.z - 16)};
    assert LookedUp(p, 7) == LookedUp(p, 6) + {p};
  }

  /** The seven look-ups of `createChunkVertices`. */
  method TakeSnapshot(world: Chunks, worldpos: IVec3) returns (neighbor_chunks: Chunks)
    ensures neighbor_chunks == Snapshot(world, worldpos)
  {
    neighbor_chunks := map[];
    for i := 0 to 7
      invariant neighbor_chunks == map q | q in world && q in LookedUp(worldpos, i) :: world[q]
    {
      var q := Add(worldpos, Times16(SNAPSHOT_OFFSETS[i]));
      if q in world {
        neighbor_chunks := neighbor_chunks[q := world[q]];
      }
    }
    AllLookedUp(worldpos);
  }
}
