/** When the uploaded meshes agree with the world, although the last result published for a position wins. */
module MeshAgreement {
  import opened Options
  import opened World
  import opened ChunkMesh
  import opened ChunkVertices
  import opened MeshPipeline

  /** Work for `p` that will still look at the world. */
  ghost predicate Pending(s: State, p: IVec3) {
    || p in s.dirty
    || (s.added.Some? && p in Neighbours(s.added.value))
    || (exists i :: 0 <= i < |s.queue| && s.queue[i].pos == p)
    || (exists w :: 0 <= w < |s.workers| && s.workers[w].Fetched? && s.workers[w].task.pos == p)
  }

  ghost predicate HeldBy(s: State, w: nat, p: IVec3) {
    w < |s.workers| && s.workers[w].Holding? && s.workers[w].task.pos == p
  }

  /** The latest snapshot of `p` is held by a worker, or its mesh is ready, or it is uploaded
      and no other result is ready. */
  ghost predicate Carried(s: State, p: IVec3)
    requires p in s.lastSnap
  {
    || (exists w: nat :: HeldBy(s, w, p) && s.workers[w].version == s.lastSnap[p])
    || (p in s.ready && s.ready[p].version == s.lastSnap[p])
    || (p !in s.ready && p in s.meshes && s.meshes[p].Some? && s.meshes[p].value.version == s.lastSnap[p])
  }

  /** The latest snapshot of `p` still shows the seven chunks as they are now. */
  ghost predicate UpToDate(s: State, p: IVec3)
    requires Proper(s)
  {
    p in s.lastSnap && s.lastSnap[p] < |s.worlds| && Snapshot(s.worlds[s.lastSnap[p]], p) == Snapshot(Now(s), p)
  }

  ghost predicate SettledAt(s: State, p: IVec3)
    requires Proper(s)
  {
    p in s.meshes ==> Pending(s, p) || (UpToDate(s, p) && Carried(s, p))
  }

  /** Every position with a mesh entry has work to come, or its latest snapshot is current and
      its result is on the way or uploaded. */
  ghost predicate Settled(s: State) {
    Proper(s) && forall p :: p in s.meshes ==> SettledAt(s, p)
  }

  /** Worker `a.w` publishes the result of the latest snapshot, or another worker holds it. */
  ghost predicate LatestAlive(s: State, a: Action, p: IVec3)
    requires Enabled(s, a) && a.Publish? && p in s.lastSnap
  {
    || s.workers[a.w].version == s.lastSnap[p]
    || exists w: nat :: w != a.w && HeldBy(s, w, p) && s.workers[w].version == s.lastSnap[p]
  }

  /** A publication does no harm if there is work to come for its position, or if the result of
      the latest snapshot stays alive. */
  ghost predicate KeepsLatest(s: State, a: Action)
    requires Enabled(s, a)
  {
    a.Publish? ==>
      var p := s.workers[a.w].task.pos;
      Pending(s, p) || p !in s.meshes || p !in s.lastSnap || LatestAlive(s, a, p)
  }

  // ----- each step keeps it

  lemma SettledReplace(s: State, a: Action, p: IVec3)
    requires Sound(s) && Settled(s) && Enabled(s, a) && a.Replace?
    ensures SettledAt(Next(s, a), p)
  {
    var t := Next(s, a);
    if p in t.meshes && p !in Neighbours(a.pos) {
      assert SettledAt(s, p);
      SnapshotLocal(Now(s), a.pos, a.chunk, p);
      PendingStays(s, t, p);
      if !Pending(s, p) {
        CarriedStays(s, t, p);
      }
    }
  }

  /** Steps that touch neither dirty set, queue nor workers. */
  lemma PendingStays(s: State, t: State, p: IVec3)
    requires s.dirty <= t.dirty && s.queue == t.queue && s.workers == t.workers && s.added.None?
    ensures Pending(s, p) ==> Pending(t, p)
  {
  }

  lemma CarriedStays(s: State, t: State, p: IVec3)
    requires s.workers == t.workers && s.ready == t.ready && s.lastSnap == t.lastSnap && p in s.lastSnap
    requires p in s.meshes ==> p in t.meshes && t.meshes[p] == s.meshes[p]
    ensures Carried(s, p) ==> Carried(t, p)
  {
    if w: nat :| HeldBy(s, w, p) && s.workers[w].version == s.lastSnap[p] {
      assert HeldBy(t, w, p);
    }
  }

  lemma SettledMark(s: State, a: Action, p: IVec3)
    requires Settled(s) && Enabled(s, a) && (a.MarkDirty? || a.ClearAll?)
    ensures SettledAt(Next(s, a), p)
  {
    var t := Next(s, a);
    if p in t.meshes {
      assert SettledAt(s, p);
      if !Pending(s, p) {
        CarriedStays(s, t, p);
      }
    }
  }

  lemma SettledEnqueue(s: State, a: Action, p: IVec3)
    requires Settled(s) && Enabled(s, a) && a.Enqueue?
    ensures SettledAt(Next(s, a), p)
  {
    var t := Next(s, a);
    if p in t.meshes {
      assert SettledAt(s, p);
      if p == a.p {
        assert t.queue[|s.queue|].pos == p;
      } else if i :| 0 <= i < |s.queue| && s.queue[i].pos == p {
        assert t.queue[i].pos == p;
      } else if !Pending(s, p) {
        CarriedStays(s, t, p);
      }
    }
  }

  lemma SettledFetch(s: State, a: Action, p: IVec3)
    requires Settled(s) && Enabled(s, a) && a.Fetch?
    ensures SettledAt(Next(s, a), p)
  {
    var t := Next(s, a);
    if p in t.meshes {
      assert SettledAt(s, p);
      if Pending(s, p) {
        FetchPending(s, a, p);
      } else {
        FetchCarried(s, a, p);
      }
    }
  }

  lemma FetchPending(s: State, a: Action, p: IVec3)
    requires Enabled(s, a) && a.Fetch? && Pending(s, p)
    ensures Pending(Next(s, a), p)
  {
    var t := Next(s, a);
    if i :| 0 <= i < |s.queue| && s.queue[i].pos == p {
      if i == 0 {
        assert t.workers[a.w].Fetched? && t.workers[a.w].task.pos == p;
      } else {
        assert t.queue[i - 1].pos == p;
      }
    } else if w :| 0 <= w < |s.workers| && s.workers[w].Fetched? && s.workers[w].task.pos == p {
      assert t.workers[w] == s.workers[w];
    }
  }

  lemma FetchCarried(s: State, a: Action, p: IVec3)
    requires Enabled(s, a) && a.Fetch? && p in s.lastSnap && Carried(s, p)
    ensures Carried(Next(s, a), p)
  {
    if w: nat :| HeldBy(s, w, p) && s.workers[w].version == s.lastSnap[p] {
      assert HeldBy(Next(s, a), w, p);
    }
  }

  lemma SettledSnap(s: State, a: Action, p: IVec3)
    requires Settled(s) && Enabled(s, a) && a.Snap?
    ensures SettledAt(Next(s, a), p)
  {
    var t := Next(s, a);
    if p in t.meshes {
      assert SettledAt(s, p);
      if p == s.workers[a.w].task.pos {
        assert HeldBy(t, a.w, p);
      } else if w :| 0 <= w < |s.workers| && s.workers[w].Fetched? && s.workers[w].task.pos == p {
        assert t.workers[w] == s.workers[w];
      } else if !Pending(s, p) {
        SnapCarried(s, a, p);
      }
    }
  }

  lemma SnapCarried(s: State, a: Action, p: IVec3)
    requires Enabled(s, a) && a.Snap? && p != s.workers[a.w].task.pos && p in s.lastSnap && Carried(s, p)
    ensures Carried(Next(s, a), p)
  {
    if w: nat :| HeldBy(s, w, p) && s.workers[w].version == s.lastSnap[p] {
      assert HeldBy(Next(s, a), w, p);
    }
  }

  lemma SettledPublish(s: State, a: Action, p: IVec3)
    requires Sound(s) && Settled(s) && Enabled(s, a) && a.Publish? && KeepsLatest(s, a)
    ensures SettledAt(Next(s, a), p)
  {
    if p == s.workers[a.w].task.pos {
      PublishExactly(s, a);
    } else if p in s.meshes {
      SettledElsewhere(s, a, p);
    }
  }

  lemma SettledElsewhere(s: State, a: Action, p: IVec3)
    requires Settled(s) && Enabled(s, a) && a.Publish? && p in s.meshes && p != s.workers[a.w].task.pos
    ensures SettledAt(Next(s, a), p)
  {
    assert SettledAt(s, p);
    PublishPending(s, a, p);
    if !Pending(s, p) {
      PublishElsewhere(s, a, p);
    }
  }

  lemma PublishPending(s: State, a: Action, p: IVec3)
    requires Enabled(s, a) && a.Publish?
    ensures Pending(Next(s, a), p) <==> Pending(s, p)
  {
    var t := Next(s, a);
    if w :| 0 <= w < |s.workers| && s.workers[w].Fetched? && s.workers[w].task.pos == p {
      assert t.workers[w] == s.workers[w];
    }
    if w :| 0 <= w < |t.workers| && t.workers[w].Fetched? && t.workers[w].task.pos == p {
      assert t.workers[w] == s.workers[w];
    }
  }

  lemma PublishElsewhere(s: State, a: Action, p: IVec3)
    requires Enabled(s, a) && a.Publish? && p in s.lastSnap && Carried(s, p) && p != s.workers[a.w].task.pos
    ensures Carried(Next(s, a), p)
  {
    if w: nat :| HeldBy(s, w, p) && s.workers[w].version == s.lastSnap[p] {
      assert HeldBy(Next(s, a), w, p);
    }
  }

  /** Last writer wins: after a publication the latest result is on the way exactly if it was the
      one published or another worker still holds it. */
  lemma PublishHere(s: State, a: Action, p: IVec3)
    requires Enabled(s, a) && a.Publish? && p == s.workers[a.w].task.pos && p in s.lastSnap
    ensures Carried(Next(s, a), p) <==> LatestAlive(s, a, p)
  {
    var t := Next(s, a);
    assert p in t.ready && t.ready[p].version == s.workers[a.w].version;
    if w: nat :| w != a.w && HeldBy(s, w, p) && s.workers[w].version == s.lastSnap[p] {
      assert HeldBy(t, w, p) && t.workers[w].version == t.lastSnap[p];
    }
    if w: nat :| HeldBy(t, w, p) && t.workers[w].version == t.lastSnap[p] {
      assert w != a.w && HeldBy(s, w, p);
    }
  }

  lemma UpToDateStays(s: State, a: Action, p: IVec3)
    requires Enabled(s, a) && a.Publish?
    ensures UpToDate(Next(s, a), p) == UpToDate(s, p)
  {
  }

  lemma PublishSettled(s: State, a: Action, p: IVec3)
    requires Enabled(s, a) && a.Publish? && p == s.workers[a.w].task.pos && p in s.lastSnap && p in s.meshes
    requires SettledAt(s, p)
    ensures SettledAt(Next(s, a), p) <==> Pending(s, p) || LatestAlive(s, a, p)
  {
    PublishPending(s, a, p);
    PublishHere(s, a, p);
    UpToDateStays(s, a, p);
  }

  /** A publication leaves its chunk settled if and only if it is harmless. */
  lemma PublishExactly(s: State, a: Action)
    requires Sound(s) && Settled(s) && Enabled(s, a) && a.Publish?
    ensures SettledAt(Next(s, a), s.workers[a.w].task.pos) <==> KeepsLatest(s, a)
  {
    var p := s.workers[a.w].task.pos;
    assert WorkerOk(s, s.workers[a.w]);
    if p in s.meshes {
      assert SettledAt(s, p);
      PublishSettled(s, a, p);
    }
  }

  lemma SettledUpload(s: State, a: Action, p: IVec3)
    requires Settled(s) && Enabled(s, a) && a.Upload?
    ensures SettledAt(Next(s, a), p)
  {
    var t := Next(s, a);
    if p in t.meshes {
      assert SettledAt(s, p);
      if !Pending(s, p) {
        if w: nat :| HeldBy(s, w, p) && s.workers[w].version == s.lastSnap[p] {
          assert HeldBy(t, w, p);
        }
      }
    }
  }

  lemma SettledStep(s: State, a: Action)
    requires Sound(s) && Settled(s) && Enabled(s, a) && KeepsLatest(s, a)
    ensures Settled(Next(s, a))
  {
    forall p | p in Next(s, a).meshes
      ensures SettledAt(Next(s, a), p)
    {
      match a
      case Replace(_, _) => SettledReplace(s, a, p);
      case MarkDirty => SettledMark(s, a, p);
      case Enqueue(_) => SettledEnqueue(s, a, p);
      case Fetch(_) => SettledFetch(s, a, p);
      case Snap(_) => SettledSnap(s, a, p);
      case Publish(_) => SettledPublish(s, a, p);
      case Upload => SettledUpload(s, a, p);
      case ClearAll => SettledMark(s, a, p);
    }
  }

  /** All publications of a run are harmless. */
  ghost predicate HarmlessRun(ss: seq<State>, acts: seq<Action>) {
    IsRun(ss, acts) && forall k :: 0 <= k < |acts| ==> KeepsLatest(ss[k], acts[k])
  }

  lemma {:induction false} SettledRun(ss: seq<State>, acts: seq<Action>)
    requires HarmlessRun(ss, acts)
    ensures Settled(ss[|acts|])
    decreases |acts|
  {
    if acts != [] {
      var n := |acts| - 1;
      SoundRun(ss[..n + 1], acts[..n]);
      SettledRun(ss[..n + 1], acts[..n]);
      SettledStep(ss[n], acts[n]);
    }
  }

  ghost predicate Quiescent(s: State) {
    && s.added.None? && s.dirty == {} && s.queue == [] && s.ready == map[]
    && forall w :: 0 <= w < |s.workers| ==> s.workers[w].Idle?
  }

  /** The uploaded mesh of `p` is the mesh of the world as it is. */
  ghost predicate Agrees(s: State, p: IVec3)
    requires Proper(s)
  {
    p in s.meshes && s.meshes[p].Some? && s.meshes[p].value.words == Mesh(Now(s), p)
  }

  /** No worker holds a result for `p` and none is ready. */
  ghost predicate NothingToUpload(s: State, p: IVec3) {
    p !in s.ready && forall w: nat :: !HeldBy(s, w, p)
  }

  /** If every publication is harmless, a chunk with a mesh entry has work pending or a result to
      upload, or its uploaded mesh is current. */
  lemma AgreesUnlessWork(ss: seq<State>, acts: seq<Action>, p: IVec3)
    requires HarmlessRun(ss, acts) && p in ss[|acts|].meshes
    ensures var s := ss[|acts|]; Proper(s) && (Pending(s, p) || !NothingToUpload(s, p) || Agrees(s, p))
  {
    var s := ss[|acts|];
    SettledRun(ss, acts);
    SoundRun(ss, acts);
    assert SettledAt(s, p);
    if !Pending(s, p) && NothingToUpload(s, p) {
      assert Genuine(s, p, s.meshes[p].value);
    }
  }

  /** So once all work is done every mesh is current. */
  lemma QuiescentAgrees(ss: seq<State>, acts: seq<Action>, p: IVec3)
    requires HarmlessRun(ss, acts) && Quiescent(ss[|acts|]) && p in ss[|acts|].meshes
    ensures Proper(ss[|acts|]) && Agrees(ss[|acts|], p)
  {
    AgreesUnlessWork(ss, acts, p);
  }

  // ----- when publications are harmless

  /** No two workers are busy with the same position. */
  ghost predicate NoOverlap(s: State) {
    forall v, w :: 0 <= v < w < |s.workers| && !s.workers[v].Idle? && !s.workers[w].Idle? ==>
      s.workers[v].task.pos != s.workers[w].task.pos
  }

  /** What a worker holds is not older than what is published for its position. */
  ghost predicate Newest(s: State) {
    forall w :: 0 <= w < |s.workers| && s.workers[w].Holding? ==>
      var p := s.workers[w].task.pos;
      && (p in s.ready ==> s.ready[p].version <= s.workers[w].version)
      && (p in s.meshes && s.meshes[p].Some? ==> s.meshes[p].value.version <= s.workers[w].version)
  }

  lemma NewestStep(s: State, a: Action)
    requires Sound(s) && Newest(s) && Enabled(s, a) && NoOverlap(s)
    ensures Newest(Next(s, a))
  {
  }

  lemma NewestIsHarmless(s: State, a: Action)
    requires Sound(s) && Newest(s) && Settled(s) && Enabled(s, a) && NoOverlap(s)
    ensures KeepsLatest(s, a)
  {
    if a.Publish? {
      var h := s.workers[a.w];
      var p := h.task.pos;
      assert WorkerOk(s, h);
      if p in s.meshes && !Pending(s, p) {
        assert SettledAt(s, p);
        if w: nat :| HeldBy(s, w, p) && s.workers[w].version == s.lastSnap[p] {
          assert w == a.w;
        }
      }
    }
  }

  /** A run without overlap is harmless. */
  lemma {:induction false} NoOverlapIsHarmless(ss: seq<State>, acts: seq<Action>)
    requires IsRun(ss, acts) && forall k :: 0 <= k <= |acts| ==> NoOverlap(ss[k])
    ensures HarmlessRun(ss, acts) && Newest(ss[|acts|])
    decreases |acts|
  {
    if acts != [] {
      var n := |acts| - 1;
      NoOverlapIsHarmless(ss[..n + 1], acts[..n]);
      SoundRun(ss[..n + 1], acts[..n]);
      SettledRun(ss[..n + 1], acts[..n]);
      NewestStep(ss[n], acts[n]);
      NewestIsHarmless(ss[n], acts[n]);
      HarmlessAppend(ss, acts);
    }
  }

  lemma HarmlessAppend(ss: seq<State>, acts: seq<Action>)
    requires IsRun(ss, acts) && acts != []
    requires HarmlessRun(ss[..|acts|], acts[..|acts| - 1]) && KeepsLatest(ss[|acts| - 1], acts[|acts| - 1])
    ensures HarmlessRun(ss, acts)
  {
    var n := |acts| - 1;
    forall k | 0 <= k < |acts|
      ensures KeepsLatest(ss[k], acts[k])
    {
      if k < n {
        assert KeepsLatest(ss[..n + 1][k], acts[..n][k]);
      }
    }
  }

  lemma {:induction false} WorkersStay(ss: seq<State>, acts: seq<Action>)
    requires IsRun(ss, acts)
    ensures forall k :: 0 <= k <= |acts| ==> |ss[k].workers| == |ss[0].workers|
    decreases |acts|
  {
    if acts != [] {
      var n := |acts| - 1;
      WorkersStay(ss[..n + 1], acts[..n]);
      forall k | 0 <= k <= |acts|
        ensures |ss[k].workers| == |ss[0].workers|
      {
        if k <= n {
          assert ss[..n + 1][k] == ss[k];
        } else {
          assert ss[k] == Next(ss[n], acts[n]) && |ss[..n + 1][n].workers| == |ss[0].workers|;
        }
      }
    }
  }

  /** With one worker, or whenever no two workers are busy with the same position, all meshes
      are current once all work is done. */
  lemma AgreementWithoutOverlap(ss: seq<State>, acts: seq<Action>, p: IVec3)
    requires IsRun(ss, acts) && Quiescent(ss[|acts|]) && p in ss[|acts|].meshes
    requires |ss[0].workers| == 1 || forall k :: 0 <= k <= |acts| ==> NoOverlap(ss[k])
    ensures Proper(ss[|acts|]) && Agrees(ss[|acts|], p)
  {
    WorkersStay(ss, acts);
    NoOverlapIsHarmless(ss, acts);
    QuiescentAgrees(ss, acts, p);
  }

  // ----- every run, with any number of workers

  /** The last result published for `p`, given the one before the step. */
  function PublishedBy(s: State, a: Action, p: IVec3, before: Option<nat>): Option<nat>
    requires Enabled(s, a)
  {
    if a.Publish? && s.workers[a.w].task.pos == p then Some(s.workers[a.w].version) else before
  }

  /** The version of the result that was published last for `p`. */
  function LastPublished(ss: seq<State>, acts: seq<Action>, p: IVec3): Option<nat>
    requires IsRun(ss, acts)
    decreases |acts|
  {
    if acts == [] then None
    else
      var n := |acts| - 1;
      PublishedBy(ss[n], acts[n], p, LastPublished(ss[..n + 1], acts[..n], p))
  }

  /** What is ready for `p`, or else uploaded, is what was published last. */
  ghost predicate Traced(s: State, p: IVec3, last: Option<nat>) {
    && (p in s.ready ==> last == Some(s.ready[p].version))
    && (p !in s.ready && p in s.meshes && s.meshes[p].Some? ==> last == Some(s.meshes[p].value.version))
  }

  /** A chunk with an entry has work to come, or its latest snapshot is current. */
  ghost predicate Seen(s: State, p: IVec3)
    requires Proper(s)
  {
    p in s.meshes ==> Pending(s, p) || UpToDate(s, p)
  }

  /** A chunk with an entry has work to come, or some result for it exists. */
  ghost predicate Served(s: State, p: IVec3) {
    p in s.meshes ==> Pending(s, p) || (exists w: nat :: HeldBy(s, w, p)) || p in s.ready || s.meshes[p].Some?
  }

  lemma TracedStep(s: State, a: Action, p: IVec3, last: Option<nat>)
    requires Enabled(s, a) && Traced(s, p, last)
    ensures Traced(Next(s, a), p, PublishedBy(s, a, p, last))
  {
  }

  /** Only a snapshot of `p` ends the last piece of pending work for it. */
  lemma PendingStep(s: State, a: Action, p: IVec3)
    requires Enabled(s, a) && Pending(s, p) && !(a.Snap? && s.workers[a.w].task.pos == p)
    ensures Pending(Next(s, a), p)
  {
    var t := Next(s, a);
    if a.Fetch? {
      FetchPending(s, a, p);
    } else if a.Publish? {
      PublishPending(s, a, p);
    } else if i :| 0 <= i < |s.queue| && s.queue[i].pos == p {
      assert t.queue[i].pos == p;
    } else if w :| 0 <= w < |s.workers| && s.workers[w].Fetched? && s.workers[w].task.pos == p {
      assert t.workers[w] == s.workers[w];
    } else if a.Enqueue? && a.p == p {
      assert t.queue[|s.queue|].pos == p;
    }
  }

  lemma SeenStep(s: State, a: Action, p: IVec3)
    requires Sound(s) && Enabled(s, a) && Seen(s, p)
    ensures Seen(Next(s, a), p)
  {
    if a.Replace? {
      if p !in Neighbours(a.pos) {
        SnapshotLocal(Now(s), a.pos, a.chunk, p);
      }
    }
    if Pending(s, p) && !(a.Snap? && s.workers[a.w].task.pos == p) {
      PendingStep(s, a, p);
    }
  }

  lemma HeldStep(s: State, a: Action, p: IVec3, w: nat)
    requires Enabled(s, a) && HeldBy(s, w, p)
    ensures HeldBy(Next(s, a), w, p) || p in Next(s, a).ready
  {
  }

  lemma ServedStep(s: State, a: Action, p: IVec3)
    requires Enabled(s, a) && Served(s, p)
    ensures Served(Next(s, a), p)
  {
    if a.Snap? && s.workers[a.w].task.pos == p {
      assert HeldBy(Next(s, a), a.w, p);
    } else if Pending(s, p) {
      PendingStep(s, a, p);
    } else if w: nat :| HeldBy(s, w, p) {
      HeldStep(s, a, p, w);
    }
  }

  lemma {:induction false} EveryRun(ss: seq<State>, acts: seq<Action>, p: IVec3)
    requires IsRun(ss, acts)
    ensures var s := ss[|acts|];
      Sound(s) && Seen(s, p) && Served(s, p) && Traced(s, p, LastPublished(ss, acts, p))
    decreases |acts|
  {
    if acts != [] {
      var n := |acts| - 1;
      EveryRun(ss[..n + 1], acts[..n], p);
      SoundStep(ss[n], acts[n]);
      SeenStep(ss[n], acts[n], p);
      ServedStep(ss[n], acts[n], p);
      TracedStep(ss[n], acts[n], p, LastPublished(ss[..n + 1], acts[..n], p));
    }
  }

  /** Once all work is done, in any run with any number of workers: the uploaded mesh of a chunk
      with an entry is the result published last.  It is that of the latest snapshot exactly if
      the last publication carried it, and then it is current; in general it is current exactly
      if the world of the last publication has the same mesh there as the world now. */
  lemma CurrentExactly(ss: seq<State>, acts: seq<Action>, p: IVec3)
    requires IsRun(ss, acts) && Quiescent(ss[|acts|]) && p in ss[|acts|].meshes
    ensures var s := ss[|acts|];
      var last := LastPublished(ss, acts, p);
      && Proper(s) && p in s.lastSnap && last.Some? && last.value <= s.lastSnap[p] < |s.worlds|
      && s.meshes[p].Some? && s.meshes[p].value.version == last.value
      && (last.value == s.lastSnap[p] ==> Agrees(s, p))
      && (Agrees(s, p) <==> Mesh(s.worlds[last.value], p) == Mesh(Now(s), p))
  {
    EveryRun(ss, acts, p);
    var s := ss[|acts|];
    assert Genuine(s, p, s.meshes[p].value);
  }

  // ----- mesh entries

  /** `clearAllChunks` has never been called with `p` loaded. */
  ghost predicate NeverCleared(ss: seq<State>, acts: seq<Action>, p: IVec3)
    requires IsRun(ss, acts)
  {
    forall k :: 0 <= k < |acts| && acts[k].ClearAll? ==> p !in Now(ss[k])
  }

  lemma NeverClearedStep(ss: seq<State>, acts: seq<Action>, p: IVec3)
    requires IsRun(ss, acts) && acts != []
    ensures var n := |acts| - 1;
      NeverCleared(ss, acts, p) <==>
        NeverCleared(ss[..n + 1], acts[..n], p) && (acts[n].ClearAll? ==> p !in Now(ss[n]))
  {
    var n := |acts| - 1;
    if NeverCleared(ss, acts, p) {
      forall k | 0 <= k < n && acts[..n][k].ClearAll?
        ensures p !in Now(ss[..n + 1][k])
      {
        assert acts[k].ClearAll?;
      }
    }
    if NeverCleared(ss[..n + 1], acts[..n], p) && (acts[n].ClearAll? ==> p !in Now(ss[n])) {
      forall k | 0 <= k < |acts| && acts[k].ClearAll?
        ensures p !in Now(ss[k])
      {
        if k < n {
          assert acts[..n][k].ClearAll?;
        }
      }
    }
  }

  lemma {:induction false} ChunksStay(ss: seq<State>, acts: seq<Action>, k: nat, p: IVec3)
    requires IsRun(ss, acts) && k <= |acts|
    ensures Proper(ss[k]) && Proper(ss[|acts|]) && (p in Now(ss[k]) ==> p in Now(ss[|acts|]))
    decreases |acts|
  {
    if k < |acts| {
      var n := |acts| - 1;
      ChunksStay(ss[..n + 1], acts[..n], k, p);
      assert ss[..n + 1][k] == ss[k] && ss[|acts|] == Next(ss[n], acts[n]);
    } else if acts != [] {
      assert ss[k] == Next(ss[k - 1], acts[k - 1]);
    }
  }

  /** What is not loaded was not loaded before. */
  lemma UnloadedNeverCleared(ss: seq<State>, acts: seq<Action>, p: IVec3)
    requires IsRun(ss, acts) && Proper(ss[|acts|]) && p !in Now(ss[|acts|])
    ensures NeverCleared(ss, acts, p)
  {
    forall k | 0 <= k < |acts| && acts[k].ClearAll?
      ensures p !in Now(ss[k])
    {
      ChunksStay(ss, acts, k, p);
    }
  }

  lemma EntryStep(s: State, a: Action, p: IVec3, never: bool)
    requires Enabled(s, a) && (p in s.meshes <==> p in Now(s) && never) && (p !in Now(s) ==> never)
    ensures p in Next(s, a).meshes <==> p in Now(Next(s, a)) && never && (a.ClearAll? ==> p !in Now(s))
  {
  }

  /** In every run, exactly those loaded chunks have a mesh entry that were not yet loaded at any
      call of `clearAllChunks`: a chunk that was cleared never gets an entry again. */
  lemma {:induction false} EntryExactly(ss: seq<State>, acts: seq<Action>, p: IVec3)
    requires IsRun(ss, acts)
    ensures Proper(ss[|acts|])
    ensures p in ss[|acts|].meshes <==> p in Now(ss[|acts|]) && NeverCleared(ss, acts, p)
    decreases |acts|
  {
    if acts != [] {
      var n := |acts| - 1;
      EntryExactly(ss[..n + 1], acts[..n], p);
      NeverClearedStep(ss, acts, p);
      if p !in Now(ss[n]) {
        UnloadedNeverCleared(ss[..n + 1], acts[..n], p);
      }
      EntryStep(ss[n], acts[n], p, NeverCleared(ss[..n + 1], acts[..n], p));
    }
  }

  /** So a loaded chunk without an entry stays without one, whatever happens. */
  lemma EntryStaysLost(ss: seq<State>, acts: seq<Action>, k: nat, p: IVec3)
    requires IsRun(ss, acts) && k <= |acts|
    requires Proper(ss[k]) && p in Now(ss[k]) && p !in ss[k].meshes
    ensures p !in ss[|acts|].meshes
  {
    EntryExactly(ss[..k + 1], acts[..k], p);
    EntryExactly(ss, acts, p);
    var i :| 0 <= i < k && acts[..k][i].ClearAll? && p in Now(ss[..k + 1][i]);
    assert acts[i].ClearAll? && p in Now(ss[i]);
  }

  /** Until `clearAllChunks`, exactly the loaded chunks have a mesh entry. */
  lemma EntriesMatchChunks(ss: seq<State>, acts: seq<Action>)
    requires IsRun(ss, acts) && forall k :: 0 <= k < |acts| ==> !acts[k].ClearAll?
    ensures Proper(ss[|acts|]) && ss[|acts|].meshes.Keys == Now(ss[|acts|]).Keys
  {
    EntryExactly(ss, acts, IVec3(0, 0, 0));
    forall p
      ensures p in ss[|acts|].meshes <==> p in Now(ss[|acts|])
    {
      EntryExactly(ss, acts, p);
    }
  }
}
