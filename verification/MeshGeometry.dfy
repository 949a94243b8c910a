/** Chunk meshes in coordinates: blocks, faces, corners and their sense, pictures, and the bits of vertices. */
module MeshGeometry {
  import opened Bits
  import opened BitNumbers
  import opened World
  import opened ChunkMesh
  import opened ChunkVertices

  // ----- blocks and faces

  /** The chunks a mesh depends on: its own, and the six that are one chunk away along one axis. */
  lemma NeighbourNumbers(p: IVec3, q: IVec3)
    ensures q in Neighbours(p) <==>
      || (q.y == p.y && q.z == p.z && (q.x == p.x || q.x == p.x + 16 || q.x == p.x - 16))
      || (q.x == p.x && q.z == p.z && (q.y == p.y + 16 || q.y == p.y - 16))
      || (q.x == p.x && q.y == p.y && (q.z == p.z + 16 || q.z == p.z - 16))
  {
  }

  /** The block `x`, `y`, `z` places into the chunk at `p`; there is air where no chunk is loaded. */
  lemma BlockNumbers(chunks: Chunks, p: IVec3, x: nat, y: nat, z: nat)
    requires AlignedPos(p) && x < 16 && y < 16 && z < 16
    ensures BlockAt(chunks, IVec3(p.x + x, p.y + y, p.z + z)) ==
      if p in chunks then chunks[p][x + 16 * y + 256 * z] else 0
  {
    InsideChunk(p, IVec3(x, y, z));
  }

  /** How often the mesh has the face of the block at (x, y, z) towards `d`. */
  function InMesh(chunks: Chunks, x: int, y: int, z: int, d: Dir): nat {
    var g := IVec3(x, y, z);
    multiset(Faces(chunks, ChunkOf(g)))[Face(LocalOf(g), d, BlockAt(chunks, g))]
  }

  /** The place in front of a face of (x, y, z): front is where z falls, left where x falls, and bottom
      where y falls. */
  function Ahead(x: int, y: int, z: int, d: Dir): IVec3 {
    match d
    case Front => IVec3(x, y, z - 1)
    case Back => IVec3(x, y, z + 1)
    case Left => IVec3(x - 1, y, z)
    case Right => IVec3(x + 1, y, z)
    case Top => IVec3(x, y + 1, z)
    case Bottom => IVec3(x, y - 1, z)
  }

  /** A face is in the mesh, once, exactly if its block is not air and the block in front of it is air,
      leaves or glass. */
  lemma FaceNumbers(chunks: Chunks, x: int, y: int, z: int, d: Dir)
    ensures InMesh(chunks, x, y, z, d) ==
      if BlockAt(chunks, IVec3(x, y, z)) != 0 && BlockAt(chunks, Ahead(x, y, z, d)) in {0, 5, 6} then 1 else 0
  {
    EveryExposedFaceOnce(chunks, IVec3(x, y, z), d);
    AheadIs(x, y, z, d);
  }

  lemma AheadIs(x: int, y: int, z: int, d: Dir)
    ensures Add(IVec3(x, y, z), Offset(d)) == Ahead(x, y, z, d)
  {
  }

  /** The order in which a cell adds its faces. */
  function Turn(d: Dir): nat {
    match d
    case Front => 0
    case Back => 1
    case Left => 2
    case Right => 3
    case Top => 4
    case Bottom => 5
  }

  predicate Earlier(f: Face, g: Face) {
    PositionToIndex(f.cell) < PositionToIndex(g.cell)
    || (PositionToIndex(f.cell) == PositionToIndex(g.cell) && Turn(f.dir) < Turn(g.dir))
  }

  /** Faces of one cell, with turns from `lo` on and below `hi`, each after the one before. */
  predicate OfCell(fs: seq<Face>, c: IVec3, lo: nat, hi: nat) {
    && (forall k :: 0 <= k < |fs| ==> fs[k].cell == c && lo <= Turn(fs[k].dir) < hi)
    && forall i, j :: 0 <= i < j < |fs| ==> Turn(fs[i].dir) < Turn(fs[j].dir)
  }

  lemma JoinTurns(fs: seq<Face>, gs: seq<Face>, c: IVec3, mid: nat, hi: nat)
    requires OfCell(fs, c, 0, mid) && OfCell(gs, c, mid, hi) && mid <= hi
    ensures OfCell(fs + gs, c, 0, hi)
  {
  }

  lemma OneTurn(chunks: Chunks, p: IVec3, c: IVec3, d: Dir)
    ensures OfCell(FaceIf(chunks, p, c, d), c, Turn(d), Turn(d) + 1)
  {
  }

  lemma CellInOrder(chunks: Chunks, p: IVec3, c: IVec3)
    ensures OfCell(CellFaces(chunks, p, c), c, 0, 6)
  {
    OneTurn(chunks, p, c, Front);
    OneTurn(chunks, p, c, Back);
    OneTurn(chunks, p, c, Left);
    OneTurn(chunks, p, c, Right);
    OneTurn(chunks, p, c, Top);
    OneTurn(chunks, p, c, Bottom);
    JoinAll(FaceIf(chunks, p, c, Front), FaceIf(chunks, p, c, Back), FaceIf(chunks, p, c, Left),
      FaceIf(chunks, p, c, Right), FaceIf(chunks, p, c, Top), FaceIf(chunks, p, c, Bottom), c);
  }

  lemma JoinAll(f: seq<Face>, g: seq<Face>, h: seq<Face>, i: seq<Face>, j: seq<Face>, k: seq<Face>, c: IVec3)
    requires OfCell(f, c, 0, 1) && OfCell(g, c, 1, 2) && OfCell(h, c, 2, 3)
    requires OfCell(i, c, 3, 4) && OfCell(j, c, 4, 5) && OfCell(k, c, 5, 6)
    ensures OfCell(f + g + h + i + j + k, c, 0, 6)
  {
    JoinTurns(f, g, c, 1, 2);
    JoinTurns(f + g, h, c, 2, 3);
    JoinTurns(f + g + h, i, c, 3, 4);
    JoinTurns(f + g + h + i, j, c, 4, 5);
    JoinTurns(f + g + h + i + j, k, c, 5, 6);
  }

  /** Faces of cells before cell `n`, each after the one before. */
  predicate InOrder(fs: seq<Face>, n: nat) {
    && (forall k :: 0 <= k < |fs| ==> PositionToIndex(fs[k].cell) < n)
    && forall i, j :: 0 <= i < j < |fs| ==> Earlier(fs[i], fs[j])
  }

  /** The faces of a mesh are in the order of their cells in the chunk, and those of a cell in the order front,
      back, left, right, top, bottom. */
  lemma {:induction false} FacesInOrder(chunks: Chunks, p: IVec3, n: nat)
    requires n <= CHUNK_SIZE
    ensures InOrder(FacesUpTo(chunks, p, n), n)
  {
    if n > 0 {
      FacesInOrder(chunks, p, n - 1);
      CellInOrder(chunks, p, CellOf(n - 1));
      AddInOrder(FacesUpTo(chunks, p, n - 1), CellFaces(chunks, p, CellOf(n - 1)), CellOf(n - 1), n);
    }
  }

  lemma AddInOrder(before: seq<Face>, fs: seq<Face>, c: IVec3, n: nat)
    requires n > 0 && InOrder(before, n - 1) && OfCell(fs, c, 0, 6) && PositionToIndex(c) == n - 1
    ensures InOrder(before + fs, n)
  {
  }

  // ----- corners

  /** The corners of a face lie on the side of the unit cube that looks at the block in front of it. */
  lemma CornersOnSide(d: Dir, k: nat)
    requires k < 6
    ensures var c := FaceCorners(d)[k];
      match d
      case Front => c.z == 0
      case Back => c.z == 1
      case Left => c.x == 0
      case Right => c.x == 1
      case Top => c.y == 1
      case Bottom => c.y == 0
  {
  }

  /** The corners of a square, numbered from 0 to 3 in the order in which one meets them going from the
      first axis towards the second. */
  function Around(s: bit, t: bit): (r: nat)
    ensures r < 4
  {
    if t == 0 then s else 3 - s
  }

  /** The corners of a face, numbered counterclockwise as seen from outside: from y to x looking at the
      front, where z falls, from x to y at the back, and so on. */
  function Quarter(d: Dir, c: Corner): (r: nat)
    ensures r < 4
  {
    match d
    case Front => Around(c.y, c.x)
    case Back => Around(c.x, c.y)
    case Left => Around(c.z, c.y)
    case Right => Around(c.y, c.z)
    case Top => Around(c.z, c.x)
    case Bottom => Around(c.x, c.z)
  }

  /** Three corners of a square that are met one after the other on one round counterclockwise. */
  predicate Turns(a: nat, b: nat, c: nat) {
    a != b && b != c && c != a && (b - a) % 4 + (c - b) % 4 + (a - c) % 4 == 4
  }

  /** Both triangles of a face turn counterclockwise as seen from outside, and so face outwards.  The corners
      that they lack are opposite: the triangles meet in a diagonal, and together are the square. */
  lemma SquareNumbers(d: Dir)
    ensures var q := Quarters(d);
      Turns(q[0], q[1], q[2]) && Turns(q[3], q[4], q[5])
      && (q[0] + q[1] + q[2] + 2) % 4 == (q[3] + q[4] + q[5]) % 4
  {
    QuartersAre(d);
    match d
    case Front =>
    case Back =>
    case Left =>
    case Right =>
    case Top =>
    case Bottom =>
  }

  function Quarters(d: Dir): (r: seq<nat>)
    ensures |r| == 6
  {
    seq(6, k requires 0 <= k < 6 => Quarter(d, FaceCorners(d)[k]))
  }

  lemma QuartersAre(d: Dir)
    ensures Quarters(d) == match d
      case Front => [0, 2, 3, 2, 0, 1]
      case Back => [0, 1, 2, 2, 3, 0]
      case Left => [2, 3, 0, 0, 1, 2]
      case Right => [2, 0, 1, 0, 2, 3]
      case Top => [0, 2, 3, 1, 2, 0]
      case Bottom => [0, 1, 2, 2, 3, 0]
  {
  }

  /** The normals of the shader (shaders/cube_shadow.vs). */
  const NORMALS: seq<IVec3> := [
    IVec3(0, 0, -1), IVec3(0, 0, 1), IVec3(-1, 0, 0), IVec3(1, 0, 0), IVec3(0, -1, 0), IVec3(0, 1, 0)]

  /** The normal of a face points to the place in front of it. */
  lemma NormalNumbers(d: Dir, x: int, y: int, z: int)
    ensures Add(IVec3(x, y, z), NORMALS[Normal(d)]) == Ahead(x, y, z, d)
  {
  }

  /** Pictures stand upright on the four sides, and are laid in one way on the top and the bottom. */
  lemma PictureNumbers(d: Dir, k: nat)
    requires k < 6
    ensures var c := FaceCorners(d)[k];
      match d
      case Front => c.u == 1 - c.x && c.v == c.y
      case Back => c.u == c.x && c.v == c.y
      case Left => c.u == c.z && c.v == c.y
      case Right => c.u == 1 - c.z && c.v == c.y
      case Top => c.u == 1 - c.x && c.v == c.z
      case Bottom => c.u == 1 - c.x && c.v == 1 - c.z
  {
  }

  // ----- pictures

  datatype Picture =
    | Undefined | GrassTop | GrassSide | Dirt | Stone | OakLogSide | OakLogTop | LeavesOak | Glass | Water
    | Sand | Snow | OakPlank | StoneBrick | Netherrack | GoldBlock | PackedIce | Lava
    | BarrelTop | BarrelSide | BarrelBottom | Bookshelf

  /** The layer of the texture array that a picture is loaded into (src/Blocktype.h). */
  function Layer(p: Picture): nat {
    match p
    case Undefined => 0
    case GrassTop => 1
    case GrassSide => 2
    case Dirt => 3
    case Stone => 4
    case OakLogSide => 5
    case OakLogTop => 6
    case LeavesOak => 7
    case Glass => 8
    case Water => 9
    case Sand => 10
    case Snow => 11
    case OakPlank => 12
    case StoneBrick => 13
    case Netherrack => 14
    case GoldBlock => 15
    case PackedIce => 16
    case Lava => 17
    case BarrelTop => 18
    case BarrelSide => 19
    case BarrelBottom => 20
    case Bookshelf => 21
  }

  /** Which pictures are seen on the top, on the sides and on the bottom of a block. */
  predicate Looks(bt: byte, top: Picture, side: Picture, bottom: Picture)
    requires bt != 0
  {
    forall d :: FaceTexture(bt, d) == Layer(if d.Top? then top else if d.Bottom? then bottom else side)
  }

  predicate LooksSame(bt: byte, p: Picture)
    requires bt != 0
  {
    Looks(bt, p, p, p)
  }

  lemma LooksAre(bt: byte, top: Picture, side: Picture, bottom: Picture)
    requires bt != 0 && BlockTextures(bt) == Textures(Layer(top), Layer(side), Layer(bottom))
    ensures Looks(bt, top, side, bottom)
  {
  }

  /** Grass, oak logs, barrels and bookshelves have several pictures. */
  lemma SeveralPictures()
    ensures Looks(1, GrassTop, GrassSide, Dirt) && Looks(4, OakLogTop, OakLogSide, OakLogTop)
    ensures Looks(16, BarrelTop, BarrelSide, BarrelBottom) && Looks(17, OakPlank, Bookshelf, OakPlank)
  {
    LooksAre(1, GrassTop, GrassSide, Dirt);
    LooksAre(4, OakLogTop, OakLogSide, OakLogTop);
    LooksAre(16, BarrelTop, BarrelSide, BarrelBottom);
    LooksAre(17, OakPlank, Bookshelf, OakPlank);
  }

  /** Other natural blocks have one: dirt, stone, leaves, glass, water, sand and snow. */
  lemma NaturalPictures()
    ensures LooksSame(2, Dirt) && LooksSame(3, Stone) && LooksSame(5, LeavesOak) && LooksSame(6, Glass)
    ensures LooksSame(7, Water) && LooksSame(8, Sand) && LooksSame(9, Snow)
  {
    LooksAre(2, Dirt, Dirt, Dirt);
    LooksAre(3, Stone, Stone, Stone);
    LooksAre(5, LeavesOak, LeavesOak, LeavesOak);
    LooksAre(6, Glass, Glass, Glass);
    LooksAre(7, Water, Water, Water);
    LooksAre(8, Sand, Sand, Sand);
    LooksAre(9, Snow, Snow, Snow);
  }

  /** And so have blocks for building, and all numbers that are no block. */
  lemma BuildingPictures(other: byte)
    requires other >= 18
    ensures LooksSame(10, OakPlank) && LooksSame(11, StoneBrick) && LooksSame(12, Netherrack)
    ensures LooksSame(13, GoldBlock) && LooksSame(14, PackedIce) && LooksSame(15, Lava) && LooksSame(other, Undefined)
  {
    LooksAre(10, OakPlank, OakPlank, OakPlank);
    LooksAre(11, StoneBrick, StoneBrick, StoneBrick);
    LooksAre(12, Netherrack, Netherrack, Netherrack);
    LooksAre(13, GoldBlock, GoldBlock, GoldBlock);
    LooksAre(14, PackedIce, PackedIce, PackedIce);
    LooksAre(15, Lava, Lava, Lava);
    LooksAre(other, Undefined, Undefined, Undefined);
  }

  // ----- vertices

  /** The fields of a word where the shader looks for them: five bits each for the place, one each for the
      point of the picture, three for the normal and five for the texture. */
  lemma ShaderReads(w: nat)
    ensures var v := Unpack(w);
      && v.x == Low(w, 5) && v.y == Low(Shr(w, 5), 5) && v.z == Low(Shr(w, 10), 5)
      && v.u == Low(Shr(w, 15), 1) && v.v == Low(Shr(w, 16), 1)
      && v.normal == Low(Shr(w, 17), 3) && v.texture == Low(Shr(w, 20), 5)
  {
    Pow2Small();
    Field(w, 0, 5);
    Field(w, 5, 5);
    Field(w, 10, 5);
    Field(w, 15, 1);
    Field(w, 16, 1);
    Field(w, 17, 3);
    Field(w, 20, 5);
  }

  lemma Field(w: nat, k: nat, n: nat)
    ensures Low(Shr(w, k), n) == w / Pow2(k) % Pow2(n)
  {
    ShiftNumbers(w, k);
    ShiftNumbers(Shr(w, k), n);
  }

  /** Word `6 * i + k` of a mesh says, as the shader reads it, where corner `k` of face `i` is in the chunk,
      which point of the picture it shows, which way the face looks and which picture it has. */
  lemma WordNumbers(chunks: Chunks, p: IVec3, i: nat, k: nat)
    requires i < |Faces(chunks, p)| && k < 6
    ensures 6 * i + k < |MeshWords(chunks, p)| == 6 * |Faces(chunks, p)|
    ensures Faces(chunks, p)[i].block != 0
    ensures var f, v := Faces(chunks, p)[i], Unpack(MeshWords(chunks, p)[6 * i + k]);
      var c := FaceCorners(f.dir)[k];
      && v.x == f.cell.x + c.x && v.y == f.cell.y + c.y && v.z == f.cell.z + c.z && v.u == c.u && v.v == c.v
      && v.normal < 6 && NORMALS[v.normal] == Ahead(0, 0, 0, f.dir)
      && v.texture == FaceTexture(f.block, f.dir)
  {
    var fs := Faces(chunks, p);
    FacesSolid(chunks, p, CHUNK_SIZE, fs);
    WordAt(fs, i, k);
    UnpackPack(fs[i], k);
    NormalNumbers(fs[i].dir, 0, 0, 0);
  }

  lemma {:induction false} WordAt(fs: seq<Face>, i: nat, k: nat)
    requires Solid(fs) && i < |fs| && k < 6
    ensures |Words(fs)| == 6 * |fs| && Words(fs)[6 * i + k] == Pack(CornerVertex(fs[i], k))
  {
    var n := |fs| - 1;
    WordsLength(fs);
    WordsLength(fs[..n]);
    if i < n {
      WordAt(fs[..n], i, k);
      assert fs[..n][i] == fs[i];
    }
  }

  lemma {:induction false} WordsLength(fs: seq<Face>)
    requires Solid(fs)
    ensures |Words(fs)| == 6 * |fs|
  {
    if fs != [] {
      WordsLength(fs[..|fs| - 1]);
    }
  }
}
