/** The calls the pipeline is made of, over the maps that `World` and `Renderer` update, and as runs of its steps. */
module Renderer {
  import opened Options
  import opened World
  import opened ChunkMesh
  import ChunkVertices
  import opened MeshPipeline
  import opened MeshRace

  /** A `ChunkMesh` is the vertex list last given to it. */
  type Words = seq<nat>

  class GameWorld {
    var chunks: Chunks
    var chunkMeshes: map<IVec3, Option<Words>>

    constructor ()
      ensures chunks == map[] && chunkMeshes == map[]
    {
      chunks, chunkMeshes := map[], map[];
    }

    method CreateOrReplaceChunk(pos: IVec3, blocktypes: Chunk)
      modifies this
      ensures chunks == old(chunks)[pos := blocktypes]
      ensures chunkMeshes == WithEntry(old(chunks), old(chunkMeshes), pos)
    {
      if pos in chunks {
        chunks := chunks[pos := blocktypes];
      } else {
        chunks := chunks[pos := blocktypes];
        chunkMeshes := chunkMeshes[pos := None];
      }
    }

    method ClearAllChunks()
      modifies this`chunkMeshes
      ensures chunkMeshes == map[]
    {
      chunkMeshes := map[];
    }
  }

  const NEIGHBOR_CHUNKPOS: seq<IVec3> := [
    IVec3(0, 0, -1), IVec3(0, 0, 1), IVec3(-1, 0, 0), IVec3(1, 0, 0),
    IVec3(0, 1, 0), IVec3(0, -1, 0), IVec3(0, 0, 0)]

  function Marked(p: IVec3, i: nat): set<IVec3>
    requires i <= 7
  {
    if i == 0 then {} else Marked(p, i - 1) + {Add(p, Times16(NEIGHBOR_CHUNKPOS[i - 1]))}
  }

  /** Invalidation marks the positions a snapshot looks at. */
  lemma AllMarked(p: IVec3)
    ensures Marked(p, 7) == Neighbours(p)
  {
    assert Marked(p, 1) == {IVec3(p.x, p.y, p.z - 16)};
    assert Marked(p, 2) == Marked(p, 1) + {IVec3(p.x, p.y, p.z + 16)};
    assert Marked(p, 3) == Marked(p, 2) + {IVec3(p.x - 16, p.y, p.z)};
    assert Marked(p, 4) == Marked(p, 3) + {IVec3(p.x + 16, p.y, p.z)};
    assert Marked(p, 5) == Marked(p, 4) + {IVec3(p.x, p.y + 16, p.z)};
    assert Marked(p, 6) == Marked(p, 5) + {IVec3(p.x, p.y - 16, p.z)};
    assert Marked(p, 7) == Marked(p, 6) + {p};
  }

  /** `order` lists the positions of `ps`, each once. */
  ghost predicate Lists(order: seq<IVec3>, ps: set<IVec3>) {
    (forall p :: p in order <==> p in ps) && forall i, j :: 0 <= i < j < |order| ==> order[i] != order[j]
  }

  /** What `createChunksMesh` has done once the positions in `done` are visited. */
  function UploadedPart(meshes: map<IVec3, Option<Words>>, ready: map<IVec3, Words>, done: set<IVec3>): map<IVec3,
      Option<Words>>
    requires done <= ready.Keys
  {
    map p | p in meshes :: if p in done then Some(ready[p]) else meshes[p]
  }

  class Renderer {
    var chunks_to_update: set<IVec3>
    var chunks_vertices_to_mesh: map<IVec3, Words>
    var tasks: seq<IVec3>

    constructor ()
      ensures chunks_to_update == {} && chunks_vertices_to_mesh == map[] && tasks == []
    {
      chunks_to_update, chunks_vertices_to_mesh, tasks := {}, map[], [];
    }

    method AddChunk(pos: IVec3)
      modifies this`chunks_to_update
      ensures chunks_to_update == old(chunks_to_update) + Neighbours(pos)
    {
      for i := 0 to 7
        invariant chunks_to_update == old(chunks_to_update) + Marked(pos, i)
      {
        var cpos := Add(pos, Times16(NEIGHBOR_CHUNKPOS[i]));
        chunks_to_update := chunks_to_update + {cpos};
      }
      AllMarked(pos);
    }

    /** Every position to update gets one task, in the order the set is walked; `order` tells it. */
    method CreateChunksVertices() returns (ghost order: seq<IVec3>)
      modifies this`chunks_to_update, this`tasks
      ensures chunks_to_update == {}
      ensures tasks == old(tasks) + order && Lists(order, old(chunks_to_update))
    {
      order := [];
      var rest := chunks_to_update;
      while rest != {}
        invariant rest <= chunks_to_update == old(chunks_to_update) && tasks == old(tasks) + order
        invariant Lists(order, chunks_to_update - rest)
        decreases |rest|
      {
        var ctu :| ctu in rest;
        tasks := tasks + [ctu];
        rest := rest - {ctu};
        order := order + [ctu];
      }
      assert chunks_to_update - {} == chunks_to_update;
      chunks_to_update := {};
    }

    /** What a worker runs for `ctu`. */
    method RunTask(world: GameWorld, ctu: IVec3)
      modifies this`chunks_vertices_to_mesh
      ensures chunks_vertices_to_mesh == old(chunks_vertices_to_mesh)[ctu := ChunkVertices.Mesh(world.chunks, ctu)]
    {
      var chunk_vertices := new ChunkVertices.ChunkVertices();
      chunk_vertices.CreateChunkVertices(world.chunks, ctu);
      assert chunk_vertices.chunk_vertices == ChunkVertices.Mesh(world.chunks, ctu);
      chunks_vertices_to_mesh := chunks_vertices_to_mesh[ctu := chunk_vertices.chunk_vertices];
    }

    method CreateChunksMesh(world: GameWorld)
      modifies this`chunks_vertices_to_mesh, world`chunkMeshes
      ensures world.chunkMeshes == Uploaded(old(world.chunkMeshes), old(chunks_vertices_to_mesh))
      ensures chunks_vertices_to_mesh == map[]
    {
      var rest := chunks_vertices_to_mesh.Keys;
      ghost var ready := chunks_vertices_to_mesh;
      while rest != {}
        invariant rest <= ready.Keys && chunks_vertices_to_mesh == ready
        invariant world.chunkMeshes == UploadedPart(old(world.chunkMeshes), ready, ready.Keys - rest)
        decreases |rest|
      {
        var pos :| pos in rest;
        rest := rest - {pos};
        if pos in world.chunkMeshes {
          world.chunkMeshes := world.chunkMeshes[pos := Some(chunks_vertices_to_mesh[pos])];
        }
      }
      chunks_vertices_to_mesh := map[];
    }
  }

  // ----- `GameScene::updateChunks`

  datatype ChunkData = ChunkData(pos: IVec3, blocktypes: Chunk)

  /** The world after the chunks of `data` have arrived in order. */
  function Arrived(chunks: Chunks, data: seq<ChunkData>): Chunks {
    if data == [] then chunks
    else
      var last := data[|data| - 1];
      Arrived(chunks, data[..|data| - 1])[last.pos := last.blocktypes]
  }

  function Entries<T>(chunks: Chunks, meshes: map<IVec3, Option<T>>, data: seq<ChunkData>): map<IVec3, Option<T>> {
    if data == [] then meshes
    else
      var before := data[..|data| - 1];
      WithEntry(Arrived(chunks, before), Entries(chunks, meshes, before), data[|data| - 1].pos)
  }

  function Touched(data: seq<ChunkData>): set<IVec3> {
    if data == [] then {} else Touched(data[..|data| - 1]) + Neighbours(data[|data| - 1].pos)
  }

  /** A chunk that shows different blocks in its snapshot has been marked. */
  lemma {:induction false} ChangesAreTouched(chunks: Chunks, data: seq<ChunkData>, p: IVec3)
    requires p !in Touched(data)
    ensures Snapshot(Arrived(chunks, data), p) == Snapshot(chunks, p)
  {
    if data != [] {
      var before, last := data[..|data| - 1], data[|data| - 1];
      ChangesAreTouched(chunks, before, p);
      SnapshotLocal(Arrived(chunks, before), last.pos, last.blocktypes, p);
    }
  }

  /** The received chunks are taken from the front one by one. */
  method ReceiveChunks(world: GameWorld, renderer: Renderer, received: seq<ChunkData>)
    modifies world, renderer`chunks_to_update
    ensures world.chunks == Arrived(old(world.chunks), received)
    ensures renderer.chunks_to_update == old(renderer.chunks_to_update) + Touched(received)
    ensures world.chunkMeshes == Entries(old(world.chunks), old(world.chunkMeshes), received)
  {
    var data := received;
    ghost var n := 0;
    while |data| != 0
      invariant n <= |received| && data == received[n..]
      invariant world.chunks == Arrived(old(world.chunks), received[..n])
      invariant renderer.chunks_to_update == old(renderer.chunks_to_update) + Touched(received[..n])
      invariant world.chunkMeshes == Entries(old(world.chunks), old(world.chunkMeshes), received[..n])
    {
      var chunk_data := data[0];
      data := data[1..];
      world.CreateOrReplaceChunk(chunk_data.pos, chunk_data.blocktypes);
      renderer.AddChunk(chunk_data.pos);
      assert received[..n + 1][..n] == received[..n];
      n := n + 1;
    }
    assert received[..n] == received;
  }

  // ----- the calls as steps of a run

  /** The loop over received chunks is a run of steps. */
  lemma {:induction false} ReceiveAll(s: State, data: seq<ChunkData>) returns (t: State)
    requires Reachable(s, Receiving) && Proper(s) && s.added.None?
    ensures Reachable(t, Receiving) && Proper(t) && Now(t) == Arrived(Now(s), data)
    ensures t == s.(
      worlds := t.worlds, dirty := s.dirty + Touched(data), meshes := Entries(Now(s), s.meshes, data))
    decreases |data|
  {
    if data == [] {
      t := s;
    } else {
      var before, last := data[..|data| - 1], data[|data| - 1];
      var s1 := ReceiveAll(s, before);
      ReachableStep(s1, Receiving, Replace(last.pos, last.blocktypes));
      var s2 := Next(s1, Replace(last.pos, last.blocktypes));
      ReachableStep(s2, Receiving, MarkDirty);
      t := Next(s2, MarkDirty);
      assert s.dirty + Touched(before) + Neighbours(last.pos) == s.dirty + Touched(data);
    }
  }

  /** A frame: the calls one after the other lead to the state their contracts describe. */
  lemma FrameRun(s: State, data: seq<ChunkData>, order: seq<IVec3>) returns (t: State)
    requires Reachable(s, Receiving) && Proper(s) && s.added.None? && Lists(order, s.dirty + Touched(data))
    ensures Reachable(t, Receiving) && Proper(t) && Now(t) == Arrived(Now(s), data)
    ensures t == s.(
      worlds := t.worlds, dirty := {}, queue := s.queue + TasksFor(order, Version(t)), ready := map[],
      meshes := Uploaded(Entries(Now(s), s.meshes, data), s.ready))
  {
    var s1 := ReceiveAll(s, data);
    EnqueueAll(s1, Receiving, order);
    var s2 := s1.(dirty := {}, queue := s1.queue + TasksFor(order, Version(s1)));
    var f := if order == [] then Receiving else Meshing;
    ReachableStep(s2, f, Upload);
    t := Next(s2, Upload);
  }

  function TasksFor(order: seq<IVec3>, since: nat): seq<Task> {
    seq(|order|, i requires 0 <= i < |order| => Task(order[i], since))
  }

  /** The whole loop is a run of steps, in any order in which the set may be walked. */
  lemma {:induction false} EnqueueAll(s: State, f: Frame, order: seq<IVec3>)
    requires Reachable(s, f) && Proper(s) && s.added.None? && Lists(order, s.dirty)
    ensures Reachable(s.(dirty := {}, queue := s.queue + TasksFor(order, Version(s))),
      if order == [] then f else Meshing)
    decreases |order|
  {
    var v := Version(s);
    if order == [] {
      assert s.dirty == {} && s.queue + TasksFor(order, v) == s.queue;
    } else {
      var p, rest := order[0], order[1..];
      assert p in order;
      ReachableStep(s, f, Enqueue(p));
      var t := Next(s, Enqueue(p));
      RestLists(order, s.dirty);
      EnqueueAll(t, Meshing, rest);
      assert s.queue + [Task(p, v)] + TasksFor(rest, v) == s.queue + TasksFor(order, v);
    }
  }

  lemma RestLists(order: seq<IVec3>, ps: set<IVec3>)
    requires Lists(order, ps) && order != []
    ensures Lists(order[1..], ps - {order[0]})
  {
    forall p
      ensures p in order[1..] <==> p in ps - {order[0]}
    {
      if p in ps - {order[0]} {
        var i :| 0 <= i < |order| && order[i] == p;
        assert order[1..][i - 1] == p;
      }
    }
  }
}
