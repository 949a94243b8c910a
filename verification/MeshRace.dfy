/** What several workers can do, in runs in the order of the program: stale meshes, and chunks without a mesh. */
module MeshRace {
  import opened Bits
  import opened Options
  import opened World
  import opened ChunkMesh
  import opened ChunkVertices
  import opened MeshPipeline
  import opened MeshAgreement

  // ----- the order of the main thread

  /** Where the main thread is in its frame: it receives chunks, or it has begun to enqueue. */
  datatype Frame = Receiving | Meshing

  /** The program takes step `a` there: no chunk is received once enqueueing has begun, all marked
      positions are enqueued before meshes are uploaded, which ends the frame, and
      `clearAllChunks` is called between frames.  Workers take their steps at any time. */
  predicate InOrder(f: Frame, s: State, a: Action) {
    match a
    case Replace(_, _) => f.Receiving?
    case ClearAll => f.Receiving? && s.dirty == {}
    case Upload => s.dirty == {}
    case _ => true
  }

  function FrameAfter(f: Frame, a: Action): Frame {
    if a.Enqueue? then Meshing else if a.Upload? then Receiving else f
  }

  /** A run of the program. */
  ghost predicate OrderedRun(ss: seq<State>, fs: seq<Frame>, acts: seq<Action>) {
    && IsRun(ss, acts) && |fs| == |ss| && fs[0].Receiving?
    && forall k :: 0 <= k < |acts| ==> InOrder(fs[k], ss[k], acts[k]) && fs[k + 1] == FrameAfter(fs[k], acts[k])
  }

  ghost predicate EndsRun(ss: seq<State>, fs: seq<Frame>, acts: seq<Action>, s: State, f: Frame) {
    OrderedRun(ss, fs, acts) && ss[|acts|] == s && fs[|acts|] == f
  }

  /** Some run of the program ends in `s`, at `f` of a frame. */
  ghost predicate Reachable(s: State, f: Frame) {
    exists ss, fs, acts :: EndsRun(ss, fs, acts, s, f)
  }

  lemma ReachableStart(s: State)
    requires Init(s)
    ensures Reachable(s, Receiving)
  {
    assert EndsRun([s], [Receiving], [], s, Receiving);
  }

  lemma ReachableStep(s: State, f: Frame, a: Action)
    requires Reachable(s, f) && Enabled(s, a) && InOrder(f, s, a)
    ensures Reachable(Next(s, a), FrameAfter(f, a))
  {
    var ss, fs, acts :| EndsRun(ss, fs, acts, s, f);
    RunOn(ss, acts, a);
    OrderOn(ss, fs, acts, a);
    assert EndsRun(ss + [Next(s, a)], fs + [FrameAfter(f, a)], acts + [a], Next(s, a), FrameAfter(f, a));
  }

  lemma RunOn(ss: seq<State>, acts: seq<Action>, a: Action)
    requires IsRun(ss, acts) && Enabled(ss[|acts|], a)
    ensures IsRun(ss + [Next(ss[|acts|], a)], acts + [a])
  {
    var ss', acts' := ss + [Next(ss[|acts|], a)], acts + [a];
    forall k | 0 <= k < |acts'|
      ensures Enabled(ss'[k], acts'[k]) && ss'[k + 1] == Next(ss'[k], acts'[k])
    {
      if k < |acts| {
        assert acts'[k] == acts[k] && ss'[k] == ss[k];
      }
    }
  }

  lemma OrderOn(ss: seq<State>, fs: seq<Frame>, acts: seq<Action>, a: Action)
    requires OrderedRun(ss, fs, acts) && Enabled(ss[|acts|], a) && InOrder(fs[|acts|], ss[|acts|], a)
    requires IsRun(ss + [Next(ss[|acts|], a)], acts + [a])
    ensures OrderedRun(ss + [Next(ss[|acts|], a)], fs + [FrameAfter(fs[|acts|], a)], acts + [a])
  {
    var ss', fs', acts' := ss + [Next(ss[|acts|], a)], fs + [FrameAfter(fs[|acts|], a)], acts + [a];
    forall k | 0 <= k < |acts'|
      ensures InOrder(fs'[k], ss'[k], acts'[k]) && fs'[k + 1] == FrameAfter(fs'[k], acts'[k])
    {
      if k < |acts| {
        assert acts'[k] == acts[k] && ss'[k] == ss[k] && fs'[k] == fs[k];
      }
    }
  }

  // ----- all work can be done

  /** Worker `w` finishes what it is busy with, if anything. */
  lemma Retire(s: State, f: Frame, w: nat) returns (t: State)
    requires Reachable(s, f) && Proper(s) && w < |s.workers|
    ensures Reachable(t, f) && t == s.(workers := s.workers[w := Idle], ready := t.ready, lastSnap := t.lastSnap)
  {
    t := s;
    if t.workers[w].Fetched? {
      ReachableStep(t, f, Snap(w));
      t := Next(t, Snap(w));
    }
    if t.workers[w].Holding? {
      ReachableStep(t, f, Publish(w));
      t := Next(t, Publish(w));
    }
    assert t.workers == s.workers[w := Idle];
  }

  /** All workers from `w` on finish. */
  lemma {:induction false} RetireAll(s: State, f: Frame, w: nat) returns (t: State)
    requires Reachable(s, f) && Proper(s) && w <= |s.workers|
    requires forall v :: 0 <= v < w ==> s.workers[v].Idle?
    ensures Reachable(t, f) && t == s.(workers := t.workers, ready := t.ready, lastSnap := t.lastSnap)
    ensures |t.workers| == |s.workers| && forall v :: 0 <= v < |t.workers| ==> t.workers[v].Idle?
    decreases |s.workers| - w
  {
    if w == |s.workers| {
      t := s;
    } else {
      var s1 := Retire(s, f, w);
      t := RetireAll(s1, f, w + 1);
    }
  }

  /** All marked positions are enqueued. */
  lemma {:induction false} EnqueueRest(s: State, f: Frame) returns (t: State, g: Frame)
    requires Reachable(s, f) && Proper(s) && s.added.None?
    ensures Reachable(t, g) && t == s.(dirty := {}, queue := t.queue) && (s.dirty == {} ==> g == f)
    decreases |s.dirty|
  {
    if s.dirty == {} {
      t, g := s, f;
    } else {
      var q :| q in s.dirty;
      ReachableStep(s, f, Enqueue(q));
      t, g := EnqueueRest(Next(s, Enqueue(q)), Meshing);
    }
  }

  /** Worker `w` serves the first task of the queue. */
  lemma Serve(s: State, f: Frame, w: nat) returns (t: State)
    requires Reachable(s, f) && Proper(s) && w < |s.workers| && s.workers[w].Idle? && s.queue != []
    ensures Reachable(t, f) && t == s.(queue := s.queue[1..], ready := t.ready, lastSnap := t.lastSnap)
  {
    ReachableStep(s, f, Fetch(w));
    t := Retire(Next(s, Fetch(w)), f, w);
    assert t.workers == s.workers;
  }

  /** It serves them all. */
  lemma {:induction false} Drain(s: State, f: Frame, w: nat) returns (t: State)
    requires Reachable(s, f) && Proper(s) && w < |s.workers| && s.workers[w].Idle?
    ensures Reachable(t, f) && t == s.(queue := [], ready := t.ready, lastSnap := t.lastSnap)
    decreases |s.queue|
  {
    if s.queue == [] {
      t := s;
    } else {
      var s1 := Serve(s, f, w);
      t := Drain(s1, f, w);
    }
  }

  /** The main thread enqueues what is marked, and worker `w` works it off. */
  lemma Finish(s: State, f: Frame, w: nat) returns (t: State, g: Frame)
    requires Reachable(s, f) && Proper(s) && s.added.None? && w < |s.workers| && s.workers[w].Idle?
    ensures Reachable(t, g) && t == s.(dirty := {}, queue := [], ready := t.ready, lastSnap := t.lastSnap)
  {
    var s1;
    s1, g := EnqueueRest(s, f);
    t := Drain(s1, g, w);
  }

  /** From every state of every run of the program all work can be done, and nothing else changes:
      the world stays, and the same chunks have meshes. */
  lemma WorkOff(s: State, f: Frame) returns (t: State)
    requires Reachable(s, f) && Proper(s) && 0 < |s.workers|
    ensures Reachable(t, Receiving) && Quiescent(t)
    ensures t.worlds == s.worlds && |t.workers| == |s.workers| && t.meshes.Keys == s.meshes.Keys
  {
    var s1 := s;
    if s.added.Some? {
      ReachableStep(s, f, MarkDirty);
      s1 := Next(s, MarkDirty);
    }
    var s2 := RetireAll(s1, f, 0);
    var s3, g := Finish(s2, f, 0);
    ReachableStep(s3, g, Upload);
    t := Next(s3, Upload);
  }

  // ----- the race

  /** A frame begins: a chunk arrives, and its own position is the first to be enqueued. */
  lemma Begin(s: State, p: IVec3, c: Chunk) returns (t: State)
    requires Reachable(s, Receiving) && Proper(s) && s.added.None? && s.dirty == {} && s.queue == []
    ensures Reachable(t, Meshing) && Proper(t) && t == s.(
      worlds := s.worlds + [Now(s)[p := c]], meshes := WithEntry(Now(s), s.meshes, p),
      dirty := Neighbours(p) - {p}, queue := [Task(p, |s.worlds|)])
  {
    ReachableStep(s, Receiving, Replace(p, c));
    var s1 := Next(s, Replace(p, c));
    ReachableStep(s1, Receiving, MarkDirty);
    var s2 := Next(s1, MarkDirty);
    ReachableStep(s2, Receiving, Enqueue(p));
    t := Next(s2, Enqueue(p));
  }

  /** The first frame: worker 0 copies its snapshot of the new chunk and is then overtaken by the
      main thread and worker 1. */
  lemma FirstFrame(s: State, p: IVec3, c: Chunk) returns (t: State)
    requires Reachable(s, Receiving) && Proper(s) && s.added.None? && s.dirty == {} && s.queue == []
    requires |s.workers| >= 2 && s.workers[0].Idle? && s.workers[1].Idle?
    ensures Reachable(t, Receiving) && Proper(t)
    ensures t == s.(
      worlds := s.worlds + [Now(s)[p := c]], meshes := t.meshes, ready := map[], lastSnap := t.lastSnap,
      workers := s.workers[0 := Holding(Task(p, |s.worlds|), Snapshot(Now(s)[p := c], p), |s.worlds|)])
    ensures t.meshes.Keys == WithEntry(Now(s), s.meshes, p).Keys
  {
    var s1 := Begin(s, p, c);
    var s2 := Take(s1, Meshing, 0);
    var s3, g := Finish(s2, Meshing, 1);
    ReachableStep(s3, g, Upload);
    t := Next(s3, Upload);
  }

  /** Worker `w` takes the first task and copies its snapshot. */
  lemma Take(s: State, f: Frame, w: nat) returns (t: State)
    requires Reachable(s, f) && Proper(s) && w < |s.workers| && s.workers[w].Idle? && s.queue != []
    ensures Reachable(t, f) && t == s.(
      queue := s.queue[1..], lastSnap := t.lastSnap,
      workers := s.workers[w := Holding(s.queue[0], Snapshot(Now(s), s.queue[0].pos), Version(s))])
  {
    ReachableStep(s, f, Fetch(w));
    var s1 := Next(s, Fetch(w));
    ReachableStep(s1, f, Snap(w));
    t := Next(s1, Snap(w));
    assert t.workers == s.workers[w := t.workers[w]];
  }

  /** The second frame: worker 1 does everything, and only then worker 0 publishes. */
  lemma SecondFrame(s: State, p: IVec3, c: Chunk) returns (t: State)
    requires Reachable(s, Receiving) && Proper(s) && s.added.None? && s.dirty == {} && s.queue == []
    requires |s.workers| >= 2 && s.workers[1].Idle? && HeldBy(s, 0, p) && p in Now(s) && p in s.meshes
    ensures Reachable(t, Receiving) && Proper(t)
    ensures t == s.(
      worlds := s.worlds + [Now(s)[p := c]], meshes := t.meshes, ready := map[], lastSnap := t.lastSnap,
      workers := s.workers[0 := Idle])
    ensures p in t.meshes && t.meshes[p].Some? && t.meshes[p].value.words == MeshWords(s.workers[0].snap, p)
  {
    var s1 := Begin(s, p, c);
    var s2 := Serve(s1, Meshing, 1);
    var s3, g := Finish(s2, Meshing, 1);
    ReachableStep(s3, g, Publish(0));
    var s4 := Next(s3, Publish(0));
    ReachableStep(s4, g, Upload);
    t := Next(s4, Upload);
  }

  function Filled(b: byte): Chunk {
    seq(CHUNK_SIZE, _ => b)
  }

  lemma {:induction false} AirHasNoFaces(chunks: Chunks, p: IVec3, n: nat)
    requires n <= CHUNK_SIZE && forall g :: BlockAt(chunks, g) == 0
    ensures FacesUpTo(chunks, p, n) == []
  {
    if n > 0 {
      AirHasNoFaces(chunks, p, n - 1);
    }
  }

  lemma AirMesh(p: IVec3)
    ensures Mesh(map[p := Filled(0)], p) == []
  {
    var snap := Snapshot(map[p := Filled(0)], p);
    forall g
      ensures BlockAt(snap, g) == 0
    {
    }
    AirHasNoFaces(snap, p, CHUNK_SIZE);
  }

  lemma StoneExposed(chunks: Chunks, p: IVec3)
    requires AlignedPos(p) && chunks.Keys == {p} && chunks[p] == Filled(3)
    ensures ChunkOf(p) == p && Exposed(chunks, p, Left)
  {
    CoordOfSum(p.x, -1);
    CoordOfSum(p.x, 0);
    CoordOfSum(p.y, 0);
    CoordOfSum(p.z, 0);
    var q := Add(p, Offset(Left));
    assert ChunkOf(q).x == p.x - 16;
    assert BlockAt(chunks, q) == 0;
    assert PositionToIndex(LocalOf(p)) == 0;
  }

  lemma WordsOfFaces(fs: seq<Face>)
    requires Solid(fs) && fs != []
    ensures Words(fs) != []
  {
  }

  lemma FacesMesh(chunks: Chunks, p: IVec3)
    requires AlignedPos(p) && Faces(chunks, p) != []
    ensures Mesh(chunks, p) != []
  {
    MeshIsWorldMesh(chunks, p);
    FacesSolid(chunks, p, CHUNK_SIZE, Faces(chunks, p));
    WordsOfFaces(Faces(chunks, p));
  }

  lemma StoneMesh(chunks: Chunks, p: IVec3)
    requires AlignedPos(p) && chunks.Keys == {p} && chunks[p] == Filled(3)
    ensures Mesh(chunks, p) != []
  {
    StoneExposed(chunks, p);
    var fs := Faces(chunks, ChunkOf(p));
    EveryExposedFaceOnce(chunks, p, Left);
    assert multiset(fs)[FaceAt(chunks, p, Left)] == 1;
    FacesMesh(chunks, p);
  }

  /** The start with `n` workers. */
  function Start(n: nat): (s: State)
    ensures Init(s) && |s.workers| == n
  {
    State([map[]], None, {}, [], seq(n, _ => Idle), map[], map[], map[])
  }

  /** With two or more workers, for any number of them, in a run of the program: the older of two
      results for one position is published last.  All work is done, no mesh is pending, and the
      uploaded mesh is not the mesh of the world. */
  lemma StaleMesh(n: nat) returns (s: State, p: IVec3)
    requires n >= 2
    ensures Reachable(s, Receiving) && |s.workers| == n && Quiescent(s) && p in s.meshes && s.meshes[p].Some?
    ensures Proper(s) && p in Now(s) && !Agrees(s, p)
  {
    p := IVec3(0, 0, 0);
    var s0 := Start(n);
    ReachableStart(s0);
    var s1 := FirstFrame(s0, p, Filled(0));
    assert Now(s1) == map[p := Filled(0)];
    s := SecondFrame(s1, p, Filled(3));
    assert s.meshes[p].value.words == Mesh(Now(s1), p);
    AirMesh(p);
    StoneMesh(Now(s), p);
  }

  /** In a run of the program a chunk arrives, all its work is done, and `clearAllChunks` is
      called: the chunk is still loaded and has no mesh entry, and no later run gives it one. */
  lemma LostEntry(n: nat, p: IVec3, c: Chunk) returns (s: State)
    requires n > 0
    ensures Reachable(s, Receiving) && |s.workers| == n && Quiescent(s)
    ensures Proper(s) && p in Now(s) && p !in s.meshes
    ensures forall ss: seq<State>, acts: seq<Action>, k: nat :: IsRun(ss, acts) && k <= |acts| && ss[k] == s ==>
      p !in ss[|acts|].meshes
  {
    var s0 := Start(n);
    ReachableStart(s0);
    var s1 := Begin(s0, p, c);
    var s2 := WorkOff(s1, Meshing);
    ReachableStep(s2, Receiving, ClearAll);
    s := Next(s2, ClearAll);
    forall ss: seq<State>, acts: seq<Action>, k: nat | IsRun(ss, acts) && k <= |acts| && ss[k] == s
      ensures p !in ss[|acts|].meshes
    {
      EntryStaysLost(ss, acts, k, p);
    }
  }
}
