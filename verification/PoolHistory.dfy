/** Runs of the thread pool without its history components: tasks as the actions of a run enqueue them, start
    them and finish them. */
module PoolHistory {
  import opened ThreadPool

  lemma LastStep<T>(ss: seq<State<T>>, acts: seq<Action<T>>)
    requires IsRun(ss, acts) && acts != []
    ensures var n := |acts| - 1;
      && IsRun(ss[..n + 1], acts[..n]) && ss[..n + 1][n] == ss[n]
      && Enabled(ss[n], acts[n]) && ss[n + 1] == Next(ss[n], acts[n])
  {
  }

  lemma RunPrefix<T>(ss: seq<State<T>>, acts: seq<Action<T>>, n: nat)
    requires IsRun(ss, acts) && n <= |acts|
    ensures IsRun(ss[..n + 1], acts[..n]) && ss[..n + 1][n] == ss[n]
  {
  }

  /** The tasks that the actions enqueue, in order. */
  function Pushed<T>(acts: seq<Action<T>>): seq<T> {
    if acts == [] then []
    else
      var before, a := Pushed(acts[..|acts| - 1]), acts[|acts| - 1];
      if a.Enqueue? then before + [a.task] else before
  }

  /** The tasks that workers start to run, in the order in which they take them. */
  function Started<T>(ss: seq<State<T>>, acts: seq<Action<T>>): seq<T>
    requires IsRun(ss, acts)
    decreases |acts|
  {
    if acts == [] then []
    else
      var n := |acts| - 1;
      var before := Started(ss[..n + 1], acts[..n]);
      if acts[n].Look? && ss[n + 1].workers[acts[n].w].Running? then before + [ss[n + 1].workers[acts[n].w].task]
      else before
  }

  /** Tasks are started in the order in which they were enqueued; what has not been started is in the queue. */
  lemma {:induction false} StartedInOrder<T>(ss: seq<State<T>>, acts: seq<Action<T>>)
    requires IsRun(ss, acts)
    ensures Pushed(acts) == ss[|acts|].enqueued && Started(ss, acts) == ss[|acts|].fetched
    ensures Pushed(acts) == Started(ss, acts) + ss[|acts|].tasks
    decreases |acts|
  {
    SafeRun(ss, acts);
    if acts != [] {
      var n := |acts| - 1;
      LastStep(ss, acts);
      StartedInOrder(ss[..n + 1], acts[..n]);
      HistoryStep(ss[n], acts[n]);
    }
  }

  lemma HistoryStep<T>(s: State<T>, a: Action<T>)
    requires Enabled(s, a)
    ensures Next(s, a).enqueued == if a.Enqueue? then s.enqueued + [a.task] else s.enqueued
    ensures Next(s, a).fetched ==
      if a.Look? && Next(s, a).workers[a.w].Running? then s.fetched + [Next(s, a).workers[a.w].task] else s.fetched
  {
  }

  /** A worker that finishes has run a task that was enqueued before, the one of its number. */
  lemma FinishesPushed<T>(ss: seq<State<T>>, acts: seq<Action<T>>, i: nat)
    requires IsRun(ss, acts) && i < |acts| && acts[i].Finish?
    ensures acts[i].w < |ss[i].workers| && ss[i].workers[acts[i].w].Running?
    ensures var r := ss[i].workers[acts[i].w]; r.k < |Pushed(acts[..i])| && r.task == Pushed(acts[..i])[r.k]
  {
    assert Enabled(ss[i], acts[i]);
    RunPrefix(ss, acts, i);
    StartedInOrder(ss[..i + 1], acts[..i]);
    SafeRun(ss[..i + 1], acts[..i]);
  }

  ghost predicate FinishedAt<T>(ss: seq<State<T>>, acts: seq<Action<T>>, i: nat, k: nat)
    requires IsRun(ss, acts)
  {
    i < |acts| && acts[i].Finish? && RunsTask(ss[i], acts[i].w, k)
  }

  /** A task is done exactly if some worker has finished it. */
  lemma {:induction false} DoneMeansFinished<T>(ss: seq<State<T>>, acts: seq<Action<T>>, k: nat)
    requires IsRun(ss, acts)
    ensures k in ss[|acts|].finished <==> exists i: nat :: FinishedAt(ss, acts, i, k)
    decreases |acts|
  {
    if acts != [] {
      var n := |acts| - 1;
      var before, sofar := ss[..n + 1], acts[..n];
      LastStep(ss, acts);
      DoneMeansFinished(before, sofar, k);
      DoneStep(ss[n], acts[n], k);
      if i: nat :| FinishedAt(before, sofar, i, k) {
        assert FinishedAt(ss, acts, i, k);
      }
      if i: nat :| FinishedAt(ss, acts, i, k) {
        assert i < n ==> FinishedAt(before, sofar, i, k);
      }
      assert acts[n].Finish? && RunsTask(ss[n], acts[n].w, k) ==> FinishedAt(ss, acts, n, k);
    }
  }

  lemma DoneStep<T>(s: State<T>, a: Action<T>, k: nat)
    requires Enabled(s, a)
    ensures k in Next(s, a).finished <==> k in s.finished || (a.Finish? && RunsTask(s, a.w, k))
  {
  }

  /** No task is finished twice. */
  lemma NoneTwice<T>(ss: seq<State<T>>, acts: seq<Action<T>>, i: nat, j: nat, k: nat)
    requires IsRun(ss, acts) && i < j && FinishedAt(ss, acts, i, k)
    ensures !FinishedAt(ss, acts, j, k)
  {
    if FinishedAt(ss, acts, j, k) {
      RunPrefix(ss, acts, j);
      assert FinishedAt(ss[..j + 1], acts[..j], i, k);
      DoneMeansFinished(ss[..j + 1], acts[..j], k);
      SafeRun(ss[..j + 1], acts[..j]);
      assert false;
    }
  }

  /** A pool at rest that was never stopped has finished every task enqueued, each once. */
  lemma EveryTaskOnce<T(!new)>(ss: seq<State<T>>, acts: seq<Action<T>>, k: nat) returns (i: nat)
    requires IsRun(ss, acts) && AtRest(ss[|acts|]) && !ss[|acts|].stop && k < |Pushed(acts)|
    ensures FinishedAt(ss, acts, i, k) && ss[i].workers[acts[i].w].task == Pushed(acts)[k]
    ensures forall j: nat :: FinishedAt(ss, acts, j, k) ==> j == i
  {
    DoneAtRest(ss, acts, k);
    i :| FinishedAt(ss, acts, i, k);
    FinishesPushed(ss, acts, i);
    PushedGrows(acts, i);
    forall j: nat | FinishedAt(ss, acts, j, k)
      ensures j == i
    {
      if i < j {
        NoneTwice(ss, acts, i, j, k);
      } else if j < i {
        NoneTwice(ss, acts, j, i, k);
      }
    }
  }

  lemma DoneAtRest<T(!new)>(ss: seq<State<T>>, acts: seq<Action<T>>, k: nat)
    requires IsRun(ss, acts) && AtRest(ss[|acts|]) && !ss[|acts|].stop && k < |Pushed(acts)|
    ensures exists i: nat :: FinishedAt(ss, acts, i, k)
  {
    RestMeansDone(ss, acts);
    StartedInOrder(ss, acts);
    DoneMeansFinished(ss, acts, k);
  }

  /** After the first call of `stop`, once all workers have left, every task enqueued before the call has been
      finished. */
  lemma StopMeans<T>(ss: seq<State<T>>, acts: seq<Action<T>>, n: nat, k: nat)
    requires IsRun(ss, acts) && n < |acts| && acts[n].Stop? && forall j :: 0 <= j < n ==> !acts[j].Stop?
    requires AllExited(ss[|acts|]) && k < |Pushed(acts[..n])|
    ensures exists i: nat :: FinishedAt(ss, acts, i, k)
  {
    RunPrefix(ss, acts, n);
    StartedInOrder(ss[..n + 1], acts[..n]);
    NotStopped(ss[..n + 1], acts[..n]);
    AllDoneAtStop(ss, acts, n, k);
    DoneMeansFinished(ss, acts, k);
  }

  lemma {:induction false} NotStopped<T>(ss: seq<State<T>>, acts: seq<Action<T>>)
    requires IsRun(ss, acts) && forall j :: 0 <= j < |acts| ==> !acts[j].Stop?
    ensures !ss[|acts|].stop
    decreases |acts|
  {
    if acts != [] {
      LastStep(ss, acts);
      NotStopped(ss[..|acts|], acts[..|acts| - 1]);
    }
  }

  lemma {:induction false} PushedGrows<T>(acts: seq<Action<T>>, i: nat)
    requires i <= |acts|
    ensures Pushed(acts[..i]) <= Pushed(acts)
    decreases |acts|
  {
    if i < |acts| {
      PushedGrows(acts[..|acts| - 1], i);
      assert acts[..|acts| - 1][..i] == acts[..i];
    } else {
      assert acts[..i] == acts;
    }
  }
}
