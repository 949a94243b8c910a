/** Which faces the mesh of a chunk contains, and how a seven-chunk snapshot stands for the whole world. */
module ChunkMesh {
  import opened Bits
  import opened World

  datatype Dir = Front | Back | Left | Right | Top | Bottom

  /** `getFaceOrientationVector`. */
  function Offset(d: Dir): IVec3 {
    match d
    case Front => IVec3(0, 0, -1)
    case Back => IVec3(0, 0, 1)
    case Left => IVec3(-1, 0, 0)
    case Right => IVec3(1, 0, 0)
    case Top => IVec3(0, 1, 0)
    case Bottom => IVec3(0, -1, 0)
  }

  /** A visible face of the block at place `cell` of a chunk. */
  datatype Face = Face(cell: IVec3, dir: Dir, block: byte)

  // ----- the snapshot

  /** The positions of a chunk and of the six chunks that touch it. */
  function Neighbours(p: IVec3): set<IVec3> {
    {p, IVec3(p.x + 16, p.y, p.z), IVec3(p.x - 16, p.y, p.z), IVec3(p.x, p.y + 16, p.z),
     IVec3(p.x, p.y - 16, p.z), IVec3(p.x, p.y, p.z + 16), IVec3(p.x, p.y, p.z - 16)}
  }

  function Snapshot(chunks: Chunks, p: IVec3): Chunks {
    map q | q in chunks && q in Neighbours(p) :: chunks[q]
  }

  lemma NeighboursSymmetric(p: IVec3, q: IVec3)
    ensures p in Neighbours(q) <==> q in Neighbours(p)
  {
  }

  /** Replacing a chunk changes the snapshots only of its own and of the six touching positions. */
  lemma SnapshotLocal(chunks: Chunks, q: IVec3, c: Chunk, p: IVec3)
    requires p !in Neighbours(q)
    ensures Snapshot(chunks[q := c], p) == Snapshot(chunks, p)
  {
    NeighboursSymmetric(p, q);
  }

  // ----- which faces there are

  predicate SeeThrough(b: byte) {
    b == 0 || b == 5 || b == 6
  }

  /** The face of the block at world position `g` towards `d` can be seen. */
  predicate Exposed(chunks: Chunks, g: IVec3, d: Dir) {
    BlockAt(chunks, g) != 0 && SeeThrough(BlockAt(chunks, Add(g, Offset(d))))
  }

  function CellOf(i: nat): (c: IVec3)
    requires i < CHUNK_SIZE
    ensures PositionToIndex(c) == i
  {
    IVec3(i % 16, i / 16 % 16, i / 256)
  }

  function FaceIf(chunks: Chunks, p: IVec3, c: IVec3, d: Dir): seq<Face> {
    if Exposed(chunks, Add(p, c), d) then [Face(c, d, BlockAt(chunks, Add(p, c)))] else []
  }

  function CellFaces(chunks: Chunks, p: IVec3, c: IVec3): seq<Face> {
    FaceIf(chunks, p, c, Front) + FaceIf(chunks, p, c, Back) + FaceIf(chunks, p, c, Left)
    + FaceIf(chunks, p, c, Right) + FaceIf(chunks, p, c, Top) + FaceIf(chunks, p, c, Bottom)
  }

  /** The faces of the first `n` cells of the chunk at `p`. */
  function FacesUpTo(chunks: Chunks, p: IVec3, n: nat): seq<Face>
    requires n <= CHUNK_SIZE
  {
    if n == 0 then [] else FacesUpTo(chunks, p, n - 1) + CellFaces(chunks, p, CellOf(n - 1))
  }

  function Faces(chunks: Chunks, p: IVec3): seq<Face> {
    FacesUpTo(chunks, p, CHUNK_SIZE)
  }

  /** Around a cell of the chunk at `p`, the snapshot shows what the world shows. */
  lemma SnapshotSees(chunks: Chunks, p: IVec3, c: IVec3, d: Dir)
    requires AlignedPos(p) && PositionToIndex(c) >= 0
    ensures BlockAt(Snapshot(chunks, p), Add(p, c)) == BlockAt(chunks, Add(p, c))
    ensures BlockAt(Snapshot(chunks, p), Add(Add(p, c), Offset(d))) == BlockAt(chunks, Add(Add(p, c), Offset(d)))
  {
    var o := Offset(d);
    InsideChunk(p, c);
    CoordOfSum(p.x, c.x + o.x);
    CoordOfSum(p.y, c.y + o.y);
    CoordOfSum(p.z, c.z + o.z);
    assert ChunkOf(Add(p, c)) == p;
    assert ChunkOf(Add(Add(p, c), o)) in Neighbours(p);
  }

  lemma SnapshotFaceIf(chunks: Chunks, p: IVec3, c: IVec3, d: Dir)
    requires AlignedPos(p) && PositionToIndex(c) >= 0
    ensures FaceIf(Snapshot(chunks, p), p, c, d) == FaceIf(chunks, p, c, d)
  {
    SnapshotSees(chunks, p, c, d);
  }

  lemma SnapshotCellFaces(chunks: Chunks, p: IVec3, c: IVec3)
    requires AlignedPos(p) && PositionToIndex(c) >= 0
    ensures CellFaces(Snapshot(chunks, p), p, c) == CellFaces(chunks, p, c)
  {
    SnapshotFaceIf(chunks, p, c, Front);
    SnapshotFaceIf(chunks, p, c, Back);
    SnapshotFaceIf(chunks, p, c, Left);
    SnapshotFaceIf(chunks, p, c, Right);
    SnapshotFaceIf(chunks, p, c, Top);
    SnapshotFaceIf(chunks, p, c, Bottom);
  }

  lemma {:induction false} SameFacesUpTo(a: Chunks, b: Chunks, p: IVec3, n: nat)
    requires n <= CHUNK_SIZE
    requires forall i :: 0 <= i < n ==> CellFaces(a, p, CellOf(i)) == CellFaces(b, p, CellOf(i))
    ensures FacesUpTo(a, p, n) == FacesUpTo(b, p, n)
  {
    if n > 0 {
      SameFacesUpTo(a, b, p, n - 1);
    }
  }

  lemma SnapshotFacesUpTo(chunks: Chunks, p: IVec3, n: nat)
    requires AlignedPos(p) && n <= CHUNK_SIZE
    ensures FacesUpTo(Snapshot(chunks, p), p, n) == FacesUpTo(chunks, p, n)
  {
    forall i | 0 <= i < n
      ensures CellFaces(Snapshot(chunks, p), p, CellOf(i)) == CellFaces(chunks, p, CellOf(i))
    {
      SnapshotCellFaces(chunks, p, CellOf(i));
    }
    SameFacesUpTo(Snapshot(chunks, p), chunks, p, n);
  }

  /** Meshing from the seven-chunk snapshot is meshing from the whole world. */
  lemma SnapshotSuffices(chunks: Chunks, p: IVec3)
    requires AlignedPos(p)
    ensures Faces(Snapshot(chunks, p), p) == Faces(chunks, p)
  {
    SnapshotFacesUpTo(chunks, p, CHUNK_SIZE);
  }

  /** A loaded or missing chunk that is not among the seven never shows in a mesh. */
  lemma MeshLocal(chunks: Chunks, q: IVec3, c: Chunk, p: IVec3)
    requires AlignedPos(p) && p !in Neighbours(q)
    ensures Faces(chunks[q := c], p) == Faces(chunks, p)
  {
    SnapshotSuffices(chunks, p);
    SnapshotSuffices(chunks[q := c], p);
    SnapshotLocal(chunks, q, c, p);
  }

  // ----- every exposed face once

  /** How often `f` may appear: once if it is a face that can be seen, else never. */
  function Times(chunks: Chunks, p: IVec3, f: Face): nat {
    if Exposed(chunks, Add(p, f.cell), f.dir) && f.block == BlockAt(chunks, Add(p, f.cell)) then 1 else 0
  }

  lemma OneFace(chunks: Chunks, p: IVec3, c: IVec3, d: Dir, f: Face)
    ensures multiset(FaceIf(chunks, p, c, d))[f] == if f.cell == c && f.dir == d then Times(chunks, p, f) else 0
  {
  }

  lemma CellFacesOnce(chunks: Chunks, p: IVec3, c: IVec3, f: Face)
    ensures multiset(CellFaces(chunks, p, c))[f] == if f.cell == c then Times(chunks, p, f) else 0
  {
    OneFace(chunks, p, c, Front, f);
    OneFace(chunks, p, c, Back, f);
    OneFace(chunks, p, c, Left, f);
    OneFace(chunks, p, c, Right, f);
    OneFace(chunks, p, c, Top, f);
    OneFace(chunks, p, c, Bottom, f);
  }

  lemma {:induction false} FacesUpToOnce(chunks: Chunks, p: IVec3, n: nat, fs: seq<Face>, f: Face)
    requires n <= CHUNK_SIZE && fs == FacesUpTo(chunks, p, n)
    ensures multiset(fs)[f] == if 0 <= PositionToIndex(f.cell) < n then Times(chunks, p, f) else 0
  {
    if n > 0 {
      var before := FacesUpTo(chunks, p, n - 1);
      FacesUpToOnce(chunks, p, n - 1, before, f);
      AddCell(before, fs, chunks, p, n, f);
    }
  }

  lemma AddCell(before: seq<Face>, fs: seq<Face>, chunks: Chunks, p: IVec3, n: nat, f: Face)
    requires 0 < n <= CHUNK_SIZE && before == FacesUpTo(chunks, p, n - 1) && fs == FacesUpTo(chunks, p, n)
    ensures multiset(fs)[f] ==
      multiset(before)[f] + (if PositionToIndex(f.cell) == n - 1 then Times(chunks, p, f) else 0)
  {
    var c := CellOf(n - 1);
    SumTimes(before, CellFaces(chunks, p, c), f);
    CellFacesOnce(chunks, p, c, f);
    SameCell(f.cell, c, n - 1);
  }

  lemma SameCell(a: IVec3, c: IVec3, i: nat)
    requires PositionToIndex(c) == i
    ensures PositionToIndex(a) == i <==> a == c
  {
    if PositionToIndex(a) == i {
      IndexInjective(a, c);
    }
  }

  /** A face of the world: the block at `g`, towards `d`. */
  function FaceAt(chunks: Chunks, g: IVec3, d: Dir): Face {
    Face(LocalOf(g), d, BlockAt(chunks, g))
  }

  /** Over all chunk meshes, each exposed face of the world appears exactly once, in the mesh of
      the chunk that holds its block, and nothing else appears. */
  lemma EveryExposedFaceOnce(chunks: Chunks, g: IVec3, d: Dir)
    ensures AlignedPos(ChunkOf(g))
    ensures multiset(Faces(chunks, ChunkOf(g)))[FaceAt(chunks, g, d)] == if Exposed(chunks, g, d) then 1 else 0
  {
    SplitPosition(g);
    FacesUpToOnce(chunks, ChunkOf(g), CHUNK_SIZE, Faces(chunks, ChunkOf(g)), FaceAt(chunks, g, d));
  }

  /** A face in the mesh of chunk `p` belongs to an exposed face of a block inside that chunk. */
  lemma MeshFacesBelong(chunks: Chunks, p: IVec3, f: Face)
    requires AlignedPos(p) && f in Faces(chunks, p)
    ensures ChunkOf(Add(p, f.cell)) == p && Exposed(chunks, Add(p, f.cell), f.dir)
    ensures f == FaceAt(chunks, Add(p, f.cell), f.dir)
  {
    assert multiset(Faces(chunks, p))[f] > 0;
    FacesUpToOnce(chunks, p, CHUNK_SIZE, Faces(chunks, p), f);
    InsideChunk(p, f.cell);
  }

  lemma InsideChunk(p: IVec3, c: IVec3)
    requires AlignedPos(p) && PositionToIndex(c) >= 0
    ensures ChunkOf(Add(p, c)) == p && LocalOf(Add(p, c)) == c
  {
    CoordOfSum(p.x, c.x);
    CoordOfSum(p.y, c.y);
    CoordOfSum(p.z, c.z);
    SplitPosition(Add(p, c));
  }
}
