/** Runs of the meshing pipeline without its history: world, queue and meshes as the actions alone say. */
module MeshHistory {
  import opened World
  import opened ChunkMesh
  import opened ChunkVertices
  import opened MeshPipeline
  import opened MeshAgreement
  import opened MeshRace

  lemma LastStep(ss: seq<State>, acts: seq<Action>)
    requires IsRun(ss, acts) && acts != []
    ensures var n := |acts| - 1;
      && IsRun(ss[..n + 1], acts[..n]) && ss[..n + 1][n] == ss[n]
      && Enabled(ss[n], acts[n]) && ss[n + 1] == Next(ss[n], acts[n])
  {
  }

  // ----- the world

  /** The chunks once the replacements among the actions have been made. */
  function Replaced(acts: seq<Action>): Chunks {
    if acts == [] then map[]
    else
      var before, a := Replaced(acts[..|acts| - 1]), acts[|acts| - 1];
      if a.Replace? then before[a.pos := a.chunk] else before
  }

  /** How many replacements there are among the actions. */
  function Replacements(acts: seq<Action>): nat {
    if acts == [] then 0
    else Replacements(acts[..|acts| - 1]) + if acts[|acts| - 1].Replace? then 1 else 0
  }

  /** The current world is what the replacements of the run have made of an empty one; its number is theirs. */
  lemma {:induction false} WorldIsReplaced(ss: seq<State>, acts: seq<Action>)
    requires IsRun(ss, acts)
    ensures Proper(ss[|acts|]) && Now(ss[|acts|]) == Replaced(acts) && Version(ss[|acts|]) == Replacements(acts)
    decreases |acts|
  {
    if acts != [] {
      var n := |acts| - 1;
      LastStep(ss, acts);
      WorldIsReplaced(ss[..n + 1], acts[..n]);
      WorldStep(ss[n], acts[n]);
    }
  }

  lemma WorldStep(s: State, a: Action)
    requires Enabled(s, a)
    ensures Now(Next(s, a)) == if a.Replace? then Now(s)[a.pos := a.chunk] else Now(s)
    ensures Version(Next(s, a)) == Version(s) + if a.Replace? then 1 else 0
  {
  }

  // ----- the queue

  function Places(ts: seq<Task>): (r: seq<IVec3>)
    ensures |r| == |ts|
  {
    seq(|ts|, i requires 0 <= i < |ts| => ts[i].pos)
  }

  /** The positions that are enqueued by the actions, in order. */
  function EnqueuedIn(acts: seq<Action>): seq<IVec3> {
    if acts == [] then []
    else
      var before, a := EnqueuedIn(acts[..|acts| - 1]), acts[|acts| - 1];
      if a.Enqueue? then before + [a.p] else before
  }

  /** The positions that workers hold after fetching, in the order in which they fetch. */
  function FetchedIn(ss: seq<State>, acts: seq<Action>): seq<IVec3>
    requires IsRun(ss, acts)
    decreases |acts|
  {
    if acts == [] then []
    else
      var n := |acts| - 1;
      var before := FetchedIn(ss[..n + 1], acts[..n]);
      if acts[n].Fetch? then before + [ss[n + 1].workers[acts[n].w].task.pos] else before
  }

  /** Workers fetch positions in the order in which these were enqueued, and none is lost or made up. */
  lemma {:induction false} FetchedInOrder(ss: seq<State>, acts: seq<Action>)
    requires IsRun(ss, acts)
    ensures EnqueuedIn(acts) == FetchedIn(ss, acts) + Places(ss[|acts|].queue)
    decreases |acts|
  {
    if acts != [] {
      var n := |acts| - 1;
      LastStep(ss, acts);
      FetchedInOrder(ss[..n + 1], acts[..n]);
      QueueStep(ss[n], acts[n], EnqueuedIn(acts[..n]), FetchedIn(ss[..n + 1], acts[..n]));
    }
  }

  lemma QueueStep(s: State, a: Action, enqueued: seq<IVec3>, fetched: seq<IVec3>)
    requires Enabled(s, a) && enqueued == fetched + Places(s.queue)
    ensures (if a.Enqueue? then enqueued + [a.p] else enqueued)
      == (if a.Fetch? then fetched + [Next(s, a).workers[a.w].task.pos] else fetched) + Places(Next(s, a).queue)
  {
    var t := Next(s, a);
    if a.Enqueue? {
      assert Places(t.queue) == Places(s.queue) + [a.p];
    } else if a.Fetch? {
      assert Places(s.queue) == [s.queue[0].pos] + Places(t.queue);
    } else {
      assert t.queue == s.queue;
    }
  }

  // ----- where uploaded meshes come from

  /** The task was enqueued in the world of its number. */
  ghost predicate Asked(acts: seq<Action>, t: Task) {
    exists i :: 0 <= i < |acts| && acts[i] == Enqueue(t.pos) && t.since == Replacements(acts[..i])
  }

  /** After the task was enqueued, at step `i`, a worker took a snapshot at step `j`, in world `version`. */
  predicate Taken(acts: seq<Action>, i: nat, j: nat, t: Task, version: nat) {
    && i < j < |acts| && acts[i] == Enqueue(t.pos) && t.since == Replacements(acts[..i])
    && acts[j].Snap? && version == Replacements(acts[..j])
  }

  ghost predicate SnapshotIs(acts: seq<Action>, t: Task, snap: Chunks, version: nat) {
    exists i: nat, j: nat :: Taken(acts, i, j, t, version) && snap == Snapshot(Replaced(acts[..j]), t.pos)
  }

  /** The result is the mesh of the world in which a worker took a snapshot, after its task was enqueued. */
  ghost predicate MeshIs(acts: seq<Action>, p: IVec3, b: Built) {
    exists i: nat, j: nat :: Taken(acts, i, j, Task(p, b.since), b.version) && b.words == Mesh(Replaced(acts[..j]), p)
  }

  ghost predicate WorkerExplained(w: Worker, acts: seq<Action>) {
    match w
    case Idle => true
    case Fetched(t) => Asked(acts, t)
    case Holding(t, snap, v) => SnapshotIs(acts, t, snap, v)
  }

  ghost predicate QueueExplained(s: State, acts: seq<Action>) {
    forall i :: 0 <= i < |s.queue| ==> Asked(acts, s.queue[i])
  }

  ghost predicate WorkersExplained(s: State, acts: seq<Action>) {
    forall w :: 0 <= w < |s.workers| ==> WorkerExplained(s.workers[w], acts)
  }

  ghost predicate ReadyExplained(s: State, acts: seq<Action>) {
    forall p :: p in s.ready ==> MeshIs(acts, p, s.ready[p])
  }

  ghost predicate MeshesExplained(s: State, acts: seq<Action>) {
    forall p :: p in s.meshes && s.meshes[p].Some? ==> MeshIs(acts, p, s.meshes[p].value)
  }

  ghost predicate Explained(s: State, acts: seq<Action>) {
    QueueExplained(s, acts) && WorkersExplained(s, acts) && ReadyExplained(s, acts) && MeshesExplained(s, acts)
  }

  lemma AskedLater(acts: seq<Action>, a: Action, t: Task)
    requires Asked(acts, t)
    ensures Asked(acts + [a], t)
  {
    var i :| 0 <= i < |acts| && acts[i] == Enqueue(t.pos) && t.since == Replacements(acts[..i]);
    assert (acts + [a])[i] == Enqueue(t.pos) && (acts + [a])[..i] == acts[..i];
  }

  lemma TakenLater(acts: seq<Action>, a: Action, i: nat, j: nat, t: Task, version: nat)
    requires Taken(acts, i, j, t, version)
    ensures Taken(acts + [a], i, j, t, version) && (acts + [a])[..j] == acts[..j]
  {
    assert (acts + [a])[..i] == acts[..i] && (acts + [a])[..j] == acts[..j];
  }

  lemma SnapshotLater(acts: seq<Action>, a: Action, t: Task, snap: Chunks, version: nat)
    requires SnapshotIs(acts, t, snap, version)
    ensures SnapshotIs(acts + [a], t, snap, version)
  {
    var i: nat, j: nat :| Taken(acts, i, j, t, version) && snap == Snapshot(Replaced(acts[..j]), t.pos);
    TakenLater(acts, a, i, j, t, version);
  }

  lemma MeshLater(acts: seq<Action>, a: Action, p: IVec3, b: Built)
    requires MeshIs(acts, p, b)
    ensures MeshIs(acts + [a], p, b)
  {
    var i: nat, j: nat :| Taken(acts, i, j, Task(p, b.since), b.version) && b.words == Mesh(Replaced(acts[..j]), p);
    TakenLater(acts, a, i, j, Task(p, b.since), b.version);
  }

  lemma MeshOfSnapshot(acts: seq<Action>, t: Task, snap: Chunks, version: nat)
    requires SnapshotIs(acts, t, snap, version)
    ensures MeshIs(acts, t.pos, Built(MeshWords(snap, t.pos), t.since, version))
  {
    var i: nat, j: nat :| Taken(acts, i, j, t, version) && snap == Snapshot(Replaced(acts[..j]), t.pos);
    assert MeshWords(snap, t.pos) == Mesh(Replaced(acts[..j]), t.pos);
    assert Taken(acts, i, j, Task(t.pos, t.since), version);
  }

  lemma ExplainedLater(s: State, acts: seq<Action>, a: Action)
    requires Explained(s, acts)
    ensures Explained(s, acts + [a])
  {
    forall i | 0 <= i < |s.queue|
      ensures Asked(acts + [a], s.queue[i])
    {
      AskedLater(acts, a, s.queue[i]);
    }
    forall w | 0 <= w < |s.workers|
      ensures WorkerExplained(s.workers[w], acts + [a])
    {
      WorkerLater(s.workers[w], acts, a);
    }
    forall p | p in s.ready
      ensures MeshIs(acts + [a], p, s.ready[p])
    {
      MeshLater(acts, a, p, s.ready[p]);
    }
    forall p | p in s.meshes && s.meshes[p].Some?
      ensures MeshIs(acts + [a], p, s.meshes[p].value)
    {
      MeshLater(acts, a, p, s.meshes[p].value);
    }
  }

  lemma WorkerLater(w: Worker, acts: seq<Action>, a: Action)
    requires WorkerExplained(w, acts)
    ensures WorkerExplained(w, acts + [a])
  {
    match w
    case Idle =>
    case Fetched(t) => AskedLater(acts, a, t);
    case Holding(t, snap, v) => SnapshotLater(acts, a, t, snap, v);
  }

  /** What the step itself adds is explained as well. */
  lemma ExplainedStep(s: State, acts: seq<Action>, a: Action)
    requires Enabled(s, a) && Explained(s, acts) && Now(s) == Replaced(acts) && Version(s) == Replacements(acts)
    ensures Explained(Next(s, a), acts + [a])
  {
    ExplainedLater(s, acts, a);
    QueueStepExplained(s, acts, a);
    WorkersStepExplained(s, acts, a);
    ReadyStepExplained(s, acts, a);
    MeshesStepExplained(s, acts + [a], a);
  }

  lemma QueueStepExplained(s: State, acts: seq<Action>, a: Action)
    requires Enabled(s, a) && QueueExplained(s, acts + [a]) && Version(s) == Replacements(acts)
    ensures QueueExplained(Next(s, a), acts + [a])
  {
    if a.Enqueue? {
      assert (acts + [a])[|acts|] == Enqueue(a.p) && (acts + [a])[..|acts|] == acts;
    }
  }

  lemma WorkersStepExplained(s: State, acts: seq<Action>, a: Action)
    requires Enabled(s, a) && Explained(s, acts) && Now(s) == Replaced(acts) && Version(s) == Replacements(acts)
    requires QueueExplained(s, acts + [a]) && WorkersExplained(s, acts + [a])
    ensures WorkersExplained(Next(s, a), acts + [a])
  {
    var t := Next(s, a);
    forall w | 0 <= w < |t.workers|
      ensures WorkerExplained(t.workers[w], acts + [a])
    {
      if t.workers[w] != s.workers[w] {
        if a.Snap? {
          SnapExplained(s, acts, a);
        }
      }
    }
  }

  lemma ReadyStepExplained(s: State, acts: seq<Action>, a: Action)
    requires Enabled(s, a) && Explained(s, acts) && ReadyExplained(s, acts + [a])
    ensures ReadyExplained(Next(s, a), acts + [a])
  {
    if a.Publish? {
      PublishExplained(s, acts, a);
    }
  }

  lemma MeshesStepExplained(s: State, acts: seq<Action>, a: Action)
    requires Enabled(s, a) && ReadyExplained(s, acts) && MeshesExplained(s, acts)
    ensures MeshesExplained(Next(s, a), acts)
  {
  }

  lemma SnapExplained(s: State, acts: seq<Action>, a: Action)
    requires Enabled(s, a) && a.Snap? && Explained(s, acts)
    requires Now(s) == Replaced(acts) && Version(s) == Replacements(acts)
    ensures WorkerExplained(Next(s, a).workers[a.w], acts + [a])
  {
    var more, t := acts + [a], s.workers[a.w].task;
    assert WorkerExplained(s.workers[a.w], acts);
    var i :| 0 <= i < |acts| && acts[i] == Enqueue(t.pos) && t.since == Replacements(acts[..i]);
    assert more[i] == Enqueue(t.pos) && more[..i] == acts[..i] && more[..|acts|] == acts;
    assert Taken(more, i, |acts|, t, Version(s));
  }

  lemma PublishExplained(s: State, acts: seq<Action>, a: Action)
    requires Enabled(s, a) && a.Publish? && Explained(s, acts)
    ensures var h := s.workers[a.w];
      MeshIs(acts + [a], h.task.pos, Built(MeshWords(h.snap, h.task.pos), h.task.since, h.version))
  {
    var h := s.workers[a.w];
    assert WorkerExplained(h, acts);
    SnapshotLater(acts, a, h.task, h.snap, h.version);
    MeshOfSnapshot(acts + [a], h.task, h.snap, h.version);
  }

  lemma {:induction false} ExplainedRun(ss: seq<State>, acts: seq<Action>)
    requires IsRun(ss, acts)
    ensures Explained(ss[|acts|], acts)
    decreases |acts|
  {
    if acts != [] {
      var n := |acts| - 1;
      LastStep(ss, acts);
      ExplainedRun(ss[..n + 1], acts[..n]);
      WorldIsReplaced(ss[..n + 1], acts[..n]);
      ExplainedStep(ss[n], acts[..n], acts[n]);
      assert acts == acts[..n] + [acts[n]];
    }
  }

  /** Every uploaded mesh is that of the world at one step at which a worker took a snapshot, after the position
      was enqueued; its two numbers are those of the worlds at these two steps. */
  lemma UploadedFrom(ss: seq<State>, acts: seq<Action>, p: IVec3) returns (i: nat, j: nat)
    requires IsRun(ss, acts) && p in ss[|acts|].meshes && ss[|acts|].meshes[p].Some?
    ensures i < j < |acts| && acts[i] == Enqueue(p) && acts[j].Snap?
    ensures var b := ss[|acts|].meshes[p].value;
      && b.words == Mesh(Replaced(acts[..j]), p)
      && b.since == Replacements(acts[..i]) && b.version == Replacements(acts[..j])
  {
    ExplainedRun(ss, acts);
    var b := ss[|acts|].meshes[p].value;
    assert MeshIs(acts, p, b);
    i, j :| Taken(acts, i, j, Task(p, b.since), b.version) && b.words == Mesh(Replaced(acts[..j]), p);
  }

  // ----- meshes stay

  /** A mesh that is shown stays shown until all chunks are cleared, and changes only in an upload: replacing its
      chunk leaves the old mesh in place. */
  lemma MeshStays(ss: seq<State>, acts: seq<Action>, p: IVec3)
    requires IsRun(ss, acts) && acts != [] && !acts[|acts| - 1].ClearAll?
    requires p in ss[|acts| - 1].meshes && ss[|acts| - 1].meshes[p].Some?
    ensures p in ss[|acts|].meshes && ss[|acts|].meshes[p].Some?
    ensures !acts[|acts| - 1].Upload? ==> ss[|acts|].meshes[p] == ss[|acts| - 1].meshes[p]
    ensures acts[|acts| - 1].Upload? && p !in ss[|acts| - 1].ready ==>
      ss[|acts|].meshes[p] == ss[|acts| - 1].meshes[p]
  {
    var n := |acts| - 1;
    LastStep(ss, acts);
    EntryExactly(ss[..n + 1], acts[..n], p);
  }

  // ----- the order of the program

  /** In a run in the order of the program, meshes are uploaded and chunks are cleared only with no position
      marked, and between enqueueing a position and receiving or clearing chunks there is an upload. */
  lemma OrderMeans(ss: seq<State>, fs: seq<Frame>, acts: seq<Action>, i: nat, j: nat)
    requires OrderedRun(ss, fs, acts) && i < j < |acts|
    ensures acts[j].Upload? || acts[j].ClearAll? ==> ss[j].dirty == {}
    ensures acts[i].Enqueue? && (acts[j].Replace? || acts[j].ClearAll?) ==> exists k :: i < k < j && acts[k].Upload?
  {
    assert InOrder(fs[j], ss[j], acts[j]);
    if acts[i].Enqueue? && fs[j].Receiving? {
      UploadBetween(ss, fs, acts, i, j);
    }
  }

  lemma {:induction false} UploadBetween(ss: seq<State>, fs: seq<Frame>, acts: seq<Action>, i: nat, j: nat)
    requires OrderedRun(ss, fs, acts) && i < j <= |acts| && acts[i].Enqueue? && fs[j].Receiving?
    ensures exists k :: i < k < j && acts[k].Upload?
    decreases j
  {
    assert fs[j] == FrameAfter(fs[j - 1], acts[j - 1]);
    if !acts[j - 1].Upload? {
      assert j - 1 != i;
      UploadBetween(ss, fs, acts, i, j - 1);
    }
  }
}
