/** The block world of `src/World.cpp`: chunks of 16 x 16 x 16 blocks in a map by position. */
module World {
  import opened Bits

  datatype IVec3 = IVec3(x: int, y: int, z: int)

  function Add(a: IVec3, b: IVec3): IVec3 {
    IVec3(a.x + b.x, a.y + b.y, a.z + b.z)
  }

  function Times16(a: IVec3): IVec3 {
    IVec3(a.x * 16, a.y * 16, a.z * 16)
  }

  const CHUNK_SIZE: nat := 4096

  type Chunk = c: seq<byte> | |c| == CHUNK_SIZE witness seq(CHUNK_SIZE, _ => 0)
  type Chunks = map<IVec3, Chunk>

  /** `World::positionToIndex`: an index for the places inside a chunk, -1 for all others. */
  function PositionToIndex(p: IVec3): (r: int)
    ensures -1 <= r < CHUNK_SIZE
  {
    if p.x < 0 || p.x > 15 || p.y < 0 || p.y > 15 || p.z < 0 || p.z > 15 then -1
    else p.x + p.y * 16 + p.z * 16 * 16
  }

  /** The remainder of C++, which has the sign of `a`. */
  function Rem(a: int, b: nat): int
    requires b > 0
  {
    if a >= 0 then a % b else -((-a) % b)
  }

  /** One coordinate of the position inside a chunk: the remainder, made non-negative. */
  function LocalCoord(a: int): (r: int)
    ensures 0 <= r < 16 && r == a % 16
  {
    RemModulo(a);
    var r := Rem(a, 16);
    if r < 0 then r + 16 else r
  }

  lemma RemModulo(a: int)
    ensures Rem(a, 16) == if a >= 0 || a % 16 == 0 then a % 16 else a % 16 - 16
  {
    if a < 0 {
      NegModulo(-a);
    }
  }

  lemma NegModulo(a: int)
    requires a > 0
    ensures a % 16 == if (-a) % 16 == 0 then 0 else 16 - (-a) % 16
  {
  }

  /** One coordinate of the chunk that holds `a`: `floor(a / 16) * 16`. */
  function ChunkCoord(a: int): (r: int)
    ensures r % 16 == 0 && r <= a < r + 16
  {
    a / 16 * 16
  }

  function ChunkOf(p: IVec3): IVec3 {
    IVec3(ChunkCoord(p.x), ChunkCoord(p.y), ChunkCoord(p.z))
  }

  function LocalOf(p: IVec3): IVec3 {
    IVec3(LocalCoord(p.x), LocalCoord(p.y), LocalCoord(p.z))
  }

  /** `getBlockAt`: the block at a position, 0 (air) where no chunk is loaded. */
  function BlockAt(chunks: Chunks, p: IVec3): byte {
    if ChunkOf(p) in chunks then chunks[ChunkOf(p)][PositionToIndex(LocalOf(p))] else 0
  }

  predicate AlignedPos(p: IVec3) {
    p.x % 16 == 0 && p.y % 16 == 0 && p.z % 16 == 0
  }

  /** A block and its place in the chunk determine its place in the world, and back. */
  lemma SplitPosition(p: IVec3)
    ensures Add(ChunkOf(p), LocalOf(p)) == p && AlignedPos(ChunkOf(p))
  {
    SplitCoord(p.x);
    SplitCoord(p.y);
    SplitCoord(p.z);
  }

  lemma SplitCoord(a: int)
    ensures ChunkCoord(a) + LocalCoord(a) == a
  {
  }

  lemma CoordOfSum(base: int, a: int)
    requires base % 16 == 0
    ensures 0 <= a < 16 ==> ChunkCoord(base + a) == base
    ensures a == -1 ==> ChunkCoord(base + a) == base - 16
    ensures a == 16 ==> ChunkCoord(base + a) == base + 16
  {
  }

  /** Exactly the places inside a chunk have an index, and no two of them the same one. */
  lemma IndexExactly(p: IVec3, q: IVec3)
    ensures PositionToIndex(p) == -1 <==> !(0 <= p.x < 16 && 0 <= p.y < 16 && 0 <= p.z < 16)
    ensures PositionToIndex(p) >= 0 && PositionToIndex(p) == PositionToIndex(q) ==> p == q
  {
    if PositionToIndex(p) >= 0 && PositionToIndex(p) == PositionToIndex(q) {
      IndexInjective(p, q);
    }
  }

  lemma IndexInjective(p: IVec3, q: IVec3)
    requires PositionToIndex(p) >= 0 && PositionToIndex(p) == PositionToIndex(q)
    ensures p == q
  {
    var i := PositionToIndex(p);
    assert p.x == i % 16 && q.x == i % 16;
    assert p.y == i / 16 % 16 && q.y == i / 16 % 16;
  }
}
