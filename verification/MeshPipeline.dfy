/** The meshing pipeline as a step relation of the main thread and the workers (`src/Renderer.cpp`). */
module MeshPipeline {
  import opened Options
  import opened World
  import opened ChunkMesh
  import opened ChunkVertices

  datatype Task = Task(pos: IVec3, since: nat)
  datatype Built = Built(words: seq<nat>, since: nat, version: nat)
  datatype Worker = Idle | Fetched(task: Task) | Holding(task: Task, snap: Chunks, version: nat)

  /** Three components are history and influence no step: `worlds` lists every world so far,
      the current one last; a task carries the number of the world in which it was enqueued and
      a result that of its snapshot; `lastSnap` gives the latest snapshot taken per position. */
  datatype State = State(
    worlds: seq<Chunks>,
    added: Option<IVec3>,
    dirty: set<IVec3>,
    queue: seq<Task>,
    workers: seq<Worker>,
    ready: map<IVec3, Built>,
    meshes: map<IVec3, Option<Built>>,
    lastSnap: map<IVec3, nat>)

  datatype Action =
    | Replace(pos: IVec3, chunk: Chunk)   // createOrReplaceChunk, under the exclusive lock
    | MarkDirty                           // addChunk for the chunk just replaced
    | Enqueue(p: IVec3)                   // one turn of createChunksVertices
    | Fetch(w: nat)                       // a worker pops the front task
    | Snap(w: nat)                        // it copies seven chunks under the shared lock
    | Publish(w: nat)                     // it stores its mesh under the mutex
    | Upload                              // createChunksMesh, under the mutex
    | ClearAll                            // clearAllChunks

  // ----- what the main-thread calls do to their maps

  /** `createOrReplaceChunk` gives a mesh entry only to a position that had no chunk. */
  function WithEntry<T>(chunks: Chunks, meshes: map<IVec3, Option<T>>, p: IVec3): map<IVec3, Option<T>> {
    if p in chunks then meshes else meshes[p := None]
  }

  /** `createChunksMesh`: every ready result replaces the mesh of its position, if there is one. */
  function Uploaded<T>(meshes: map<IVec3, Option<T>>, ready: map<IVec3, T>): map<IVec3, Option<T>> {
    map p | p in meshes :: if p in ready then Some(ready[p]) else meshes[p]
  }

  // ----- the step relation

  predicate Proper(s: State) {
    s.worlds != []
  }

  function Version(s: State): nat
    requires Proper(s)
  {
    |s.worlds| - 1
  }

  /** The current world. */
  function Now(s: State): Chunks
    requires Proper(s)
  {
    s.worlds[Version(s)]
  }

  predicate Enabled(s: State, a: Action) {
    Proper(s) &&
    match a
    case Replace(_, _) => s.added.None?
    case MarkDirty => s.added.Some?
    case Enqueue(p) => s.added.None? && p in s.dirty
    case Fetch(w) => w < |s.workers| && s.workers[w].Idle? && s.queue != []
    case Snap(w) => w < |s.workers| && s.workers[w].Fetched?
    case Publish(w) => w < |s.workers| && s.workers[w].Holding?
    case Upload => s.added.None?
    case ClearAll => s.added.None?
  }

  function Next(s: State, a: Action): (t: State)
    requires Enabled(s, a)
    ensures Proper(t)
  {
    match a
    case Replace(p, c) =>
      s.(worlds := s.worlds + [Now(s)[p := c]], meshes := WithEntry(Now(s), s.meshes, p), added := Some(p))
    case MarkDirty =>
      s.(dirty := s.dirty + Neighbours(s.added.value), added := None)
    case Enqueue(p) =>
      s.(dirty := s.dirty - {p}, queue := s.queue + [Task(p, Version(s))])
    case Fetch(w) =>
      s.(queue := s.queue[1..], workers := s.workers[w := Fetched(s.queue[0])])
    case Snap(w) =>
      var t := s.workers[w].task;
      s.(workers := s.workers[w := Holding(t, Snapshot(Now(s), t.pos), Version(s))],
         lastSnap := s.lastSnap[t.pos := Version(s)])
    case Publish(w) =>
      var h := s.workers[w];
      s.(workers := s.workers[w := Idle],
         ready := s.ready[h.task.pos := Built(MeshWords(h.snap, h.task.pos), h.task.since, h.version)])
    case Upload =>
      s.(meshes := Uploaded(s.meshes, s.ready), ready := map[])
    case ClearAll =>
      s.(meshes := map[])
  }

  /** An empty world, idle workers and no work. */
  predicate Init(s: State) {
    && s.worlds == [map[]] && s.added.None? && s.dirty == {} && s.queue == []
    && (forall w :: 0 <= w < |s.workers| ==> s.workers[w].Idle?)
    && s.ready == map[] && s.meshes == map[] && s.lastSnap == map[]
  }

  /** `ss` is a run that takes the actions `acts`. */
  predicate IsRun(ss: seq<State>, acts: seq<Action>) {
    && |ss| == |acts| + 1 && Init(ss[0])
    && forall k :: 0 <= k < |acts| ==> Enabled(ss[k], acts[k]) && ss[k + 1] == Next(ss[k], acts[k])
  }

  // ----- what always holds

  /** A result at `p` is the mesh of one world, no older than its task. */
  predicate Genuine(s: State, p: IVec3, b: Built) {
    && b.since <= b.version < |s.worlds|
    && b.words == Mesh(s.worlds[b.version], p)
    && p in s.lastSnap && b.version <= s.lastSnap[p]
  }

  predicate WorkerOk(s: State, w: Worker) {
    match w
    case Idle => true
    case Fetched(t) => t.since < |s.worlds|
    case Holding(t, snap, v) =>
      && t.since <= v < |s.worlds| && snap == Snapshot(s.worlds[v], t.pos)
      && t.pos in s.lastSnap && v <= s.lastSnap[t.pos]
  }

  predicate Sound(s: State) {
    && Proper(s)
    && (forall p :: p in s.lastSnap ==> s.lastSnap[p] < |s.worlds|)
    && (forall i :: 0 <= i < |s.queue| ==> s.queue[i].since < |s.worlds|)
    && WorkersOk(s) && ReadyOk(s)
    && (forall p :: p in s.meshes && s.meshes[p].Some? ==> Genuine(s, p, s.meshes[p].value))
  }

  predicate WorkersOk(s: State) {
    forall w :: 0 <= w < |s.workers| ==> WorkerOk(s, s.workers[w])
  }

  predicate ReadyOk(s: State) {
    forall p :: p in s.ready ==> Genuine(s, p, s.ready[p])
  }

  lemma SoundReplace(s: State, a: Action)
    requires Sound(s) && Enabled(s, a) && a.Replace?
    ensures Sound(Next(s, a))
  {
  }

  lemma SoundFetch(s: State, a: Action)
    requires Sound(s) && Enabled(s, a) && a.Fetch?
    ensures Sound(Next(s, a))
  {
  }

  lemma SnapWorkers(s: State, a: Action)
    requires Sound(s) && Enabled(s, a) && a.Snap?
    ensures WorkersOk(Next(s, a))
  {
    var t := Next(s, a);
    forall w | 0 <= w < |t.workers|
      ensures WorkerOk(t, t.workers[w])
    {
      assert WorkerOk(s, s.workers[w]);
    }
  }

  lemma SoundSnap(s: State, a: Action)
    requires Sound(s) && Enabled(s, a) && a.Snap?
    ensures Sound(Next(s, a))
  {
    SnapWorkers(s, a);
  }

  lemma PublishReady(s: State, a: Action)
    requires Sound(s) && Enabled(s, a) && a.Publish?
    ensures ReadyOk(Next(s, a))
  {
    assert WorkerOk(s, s.workers[a.w]);
  }

  lemma SoundPublish(s: State, a: Action)
    requires Sound(s) && Enabled(s, a) && a.Publish?
    ensures Sound(Next(s, a))
  {
    PublishReady(s, a);
    var t := Next(s, a);
    forall w | 0 <= w < |t.workers|
      ensures WorkerOk(t, t.workers[w])
    {
      assert WorkerOk(s, s.workers[w]);
    }
  }

  lemma SoundQueue(s: State, a: Action)
    requires Sound(s) && Enabled(s, a) && (a.MarkDirty? || a.Enqueue?)
    ensures Sound(Next(s, a))
  {
    var t := Next(s, a);
    forall w | 0 <= w < |t.workers|
      ensures WorkerOk(t, t.workers[w])
    {
      assert WorkerOk(s, s.workers[w]);
    }
  }

  lemma SoundEntries(s: State, a: Action)
    requires Sound(s) && Enabled(s, a) && (a.Upload? || a.ClearAll?)
    ensures Sound(Next(s, a))
  {
    var t := Next(s, a);
    forall w | 0 <= w < |t.workers|
      ensures WorkerOk(t, t.workers[w])
    {
      assert WorkerOk(s, s.workers[w]);
    }
  }

  lemma SoundStep(s: State, a: Action)
    requires Sound(s) && Enabled(s, a)
    ensures Sound(Next(s, a))
  {
    if a.Replace? {
      SoundReplace(s, a);
    } else if a.Fetch? {
      SoundFetch(s, a);
    } else if a.Snap? {
      SoundSnap(s, a);
    } else if a.Publish? {
      SoundPublish(s, a);
    } else if a.MarkDirty? || a.Enqueue? {
      SoundQueue(s, a);
    } else {
      SoundEntries(s, a);
    }
  }

  lemma {:induction false} SoundRun(ss: seq<State>, acts: seq<Action>)
    requires IsRun(ss, acts)
    ensures Sound(ss[|acts|])
    decreases |acts|
  {
    if acts != [] {
      var n := |acts| - 1;
      SoundRun(ss[..n + 1], acts[..n]);
      SoundStep(ss[n], acts[n]);
    }
  }

  /** In every run, with any number of workers: an uploaded mesh is the mesh of one single world
      of the run, and that world is no older than its enqueueing. */
  lemma UploadedMeshesAreGenuine(ss: seq<State>, acts: seq<Action>, p: IVec3)
    requires IsRun(ss, acts) && p in ss[|acts|].meshes && ss[|acts|].meshes[p].Some?
    ensures var s := ss[|acts|];
      var b := s.meshes[p].value;
      b.since <= b.version < |s.worlds| && b.words == Mesh(s.worlds[b.version], p)
  {
    SoundRun(ss, acts);
  }
}
