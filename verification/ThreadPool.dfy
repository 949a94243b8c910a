/** The thread pool: holding the mutex is one step, notifying another, and threads may wake for no reason. */
module ThreadPool {
  datatype Worker<+T> = Awake | Waiting | Running(k: nat, task: T) | Exited

  /** Five components are history and influence no step: `enqueued` and `fetched` list all tasks
      in the order they entered and left the queue, `finished` numbers those that have been
      executed, `atStop` counts how many were in `enqueued` when `stop` was first called,
      and a running worker carries the number of its task. */
  datatype State<+T> = State(
    tasks: seq<T>,
    stop: bool,
    workers: seq<Worker<T>>,
    owedOne: nat,
    owedAll: nat,
    enqueued: seq<T>,
    fetched: seq<T>,
    finished: set<nat>,
    atStop: nat)

  datatype Action<+T> =
    | Enqueue(task: T)     // push under the mutex; one notification is then owed
    | NotifyOne(w: nat)    // an owed `notify_one` reaches a waiting worker
    | NotifyNobody         // an owed `notify_one` finds nobody waiting
    | Stop                 // set `stop_` under the mutex; `notify_all` is then owed
    | NotifyAll
    | Spurious(w: nat)     // a waiting worker wakes by itself
    | Look(w: nat)         // an awake worker takes the mutex: waits, leaves, or takes a task
    | Finish(w: nat)       // `task()` returns

  predicate Enabled<T>(s: State<T>, a: Action<T>) {
    match a
    case Enqueue(_) => true
    case NotifyOne(w) => s.owedOne > 0 && w < |s.workers| && s.workers[w].Waiting?
    case NotifyNobody => s.owedOne > 0 && forall w :: 0 <= w < |s.workers| ==> !s.workers[w].Waiting?
    case Stop => true
    case NotifyAll => s.owedAll > 0
    case Spurious(w) => w < |s.workers| && s.workers[w].Waiting?
    case Look(w) => w < |s.workers| && s.workers[w].Awake?
    case Finish(w) => w < |s.workers| && s.workers[w].Running?
  }

  function WakeAll<T>(ws: seq<Worker<T>>): (r: seq<Worker<T>>)
    ensures |r| == |ws|
    ensures forall i :: 0 <= i < |ws| ==> r[i] == if ws[i].Waiting? then Awake else ws[i]
  {
    seq(|ws|, i requires 0 <= i < |ws| => if ws[i].Waiting? then Awake else ws[i])
  }

  function Next<T>(s: State<T>, a: Action<T>): State<T>
    requires Enabled(s, a)
  {
    match a
    case Enqueue(t) => s.(tasks := s.tasks + [t], owedOne := s.owedOne + 1, enqueued := s.enqueued + [t])
    case NotifyOne(w) => s.(owedOne := s.owedOne - 1, workers := s.workers[w := Awake])
    case NotifyNobody => s.(owedOne := s.owedOne - 1)
    case Stop => s.(stop := true, owedAll := s.owedAll + 1, atStop := if s.stop then s.atStop else |s.enqueued|)
    case NotifyAll => s.(owedAll := s.owedAll - 1, workers := WakeAll(s.workers))
    case Spurious(w) => s.(workers := s.workers[w := Awake])
    case Look(w) =>
      if s.tasks == [] && !s.stop then s.(workers := s.workers[w := Waiting])
      else if s.stop && s.tasks == [] then s.(workers := s.workers[w := Exited])
      else s.(tasks := s.tasks[1..], fetched := s.fetched + [s.tasks[0]],
              workers := s.workers[w := Running(|s.fetched|, s.tasks[0])])
    case Finish(w) => s.(workers := s.workers[w := Awake], finished := s.finished + {s.workers[w].k})
  }

  predicate Init<T(==)>(s: State<T>) {
    && s.tasks == [] && !s.stop && s.owedOne == 0 && s.owedAll == 0
    && s.enqueued == [] && s.fetched == [] && s.finished == {}
    && |s.workers| > 0 && forall w :: 0 <= w < |s.workers| ==> s.workers[w].Awake?
  }

  predicate IsRun<T(==)>(ss: seq<State<T>>, acts: seq<Action<T>>) {
    && |ss| == |acts| + 1 && Init(ss[0])
    && forall i :: 0 <= i < |acts| ==> Enabled(ss[i], acts[i]) && ss[i + 1] == Next(ss[i], acts[i])
  }

  // ----- first in, first out, exactly once

  ghost predicate RunsTask<T>(s: State<T>, w: nat, k: nat) {
    w < |s.workers| && s.workers[w].Running? && s.workers[w].k == k
  }

  /** Tasks leave the queue in the order they entered; each that has left is being executed by
      one worker or has been executed, never both; no other task is. */
  ghost predicate Once<T>(s: State<T>) {
    && s.enqueued == s.fetched + s.tasks
    && (forall w :: 0 <= w < |s.workers| && s.workers[w].Running? ==>
      s.workers[w].k < |s.fetched| && s.workers[w].task == s.fetched[s.workers[w].k] && s.workers[w].k !in s.finished)
    && (forall v, w :: 0 <= v < w < |s.workers| && s.workers[v].Running? && s.workers[w].Running? ==>
      s.workers[v].k != s.workers[w].k)
    && (forall k :: k in s.finished ==> k < |s.fetched|)
    && (forall k: nat :: k < |s.fetched| ==> k in s.finished || exists w: nat :: RunsTask(s, w, k))
  }

  lemma OnceOther<T>(s: State<T>, a: Action<T>)
    requires Once(s) && Enabled(s, a) && !a.Look? && !a.Finish?
    ensures Once(Next(s, a))
  {
    var t := Next(s, a);
    forall k: nat | k < |t.fetched| && k !in t.finished
      ensures exists w: nat :: RunsTask(t, w, k)
    {
      var w: nat :| RunsTask(s, w, k);
      assert RunsTask(t, w, k);
    }
  }

  lemma OnceLook<T>(s: State<T>, a: Action<T>)
    requires Once(s) && Enabled(s, a) && a.Look?
    ensures Once(Next(s, a))
  {
    var t := Next(s, a);
    forall k: nat | k < |t.fetched| && k !in t.finished
      ensures exists w: nat :: RunsTask(t, w, k)
    {
      if k == |s.fetched| {
        assert RunsTask(t, a.w, k);
      } else {
        var w: nat :| RunsTask(s, w, k);
        assert RunsTask(t, w, k);
      }
    }
  }

  lemma OnceFinish<T>(s: State<T>, a: Action<T>)
    requires Once(s) && Enabled(s, a) && a.Finish?
    ensures Once(Next(s, a))
  {
    var t := Next(s, a);
    forall k: nat | k < |t.fetched| && k !in t.finished
      ensures exists w: nat :: RunsTask(t, w, k)
    {
      var w: nat :| RunsTask(s, w, k);
      assert RunsTask(t, w, k);
    }
  }

  // ----- no lost wakeup

  predicate Busy<T>(w: Worker<T>) {
    w.Awake? || w.Running?
  }

  ghost predicate SomeBusy<T>(s: State<T>) {
    exists w :: 0 <= w < |s.workers| && Busy(s.workers[w])
  }

  /** While a task is in the queue, a worker is awake or a notification is owed, unless the queue
      was found empty after `stop`.  Once `stop` is set, a worker waits only as long as
      `notify_all` is owed, and leaves only when all that was enqueued before has been taken. */
  ghost predicate Wakeful<T>(s: State<T>) {
    && |s.workers| > 0
    && (s.stop ==> s.atStop <= |s.enqueued|)
    && (forall w :: 0 <= w < |s.workers| && s.workers[w].Exited? ==> s.stop && s.atStop <= |s.fetched|)
    && (s.stop && s.owedAll == 0 ==> forall w :: 0 <= w < |s.workers| ==> !s.workers[w].Waiting?)
    && (s.tasks != [] && !(s.stop && s.atStop <= |s.fetched|) ==>
      SomeBusy(s) || s.owedOne > 0 || s.owedAll > 0)
  }

  lemma WakefulMain<T>(s: State<T>, a: Action<T>)
    requires Wakeful(s) && Enabled(s, a) && (a.Enqueue? || a.Stop? || a.NotifyNobody? || a.NotifyAll?)
    ensures Wakeful(Next(s, a))
  {
    var t := Next(s, a);
    if w :| 0 <= w < |s.workers| && Busy(s.workers[w]) {
      assert Busy(t.workers[w]);
    } else if a.NotifyNobody? || a.NotifyAll? {
      assert s.workers[0].Waiting? || s.workers[0].Exited?;
      assert Busy(t.workers[0]) || t.workers[0].Exited?;
    }
  }

  lemma WakefulWorker<T>(s: State<T>, a: Action<T>)
    requires Once(s) && Wakeful(s) && Enabled(s, a) && (a.NotifyOne? || a.Spurious? || a.Look? || a.Finish?)
    ensures Wakeful(Next(s, a))
  {
    var t := Next(s, a);
    if a.Look? && s.tasks == [] {
      assert |s.fetched| == |s.enqueued|;
    } else {
      assert Busy(t.workers[a.w]);
    }
  }

  ghost predicate Safe<T>(s: State<T>) {
    Once(s) && Wakeful(s)
  }

  lemma SafeStep<T>(s: State<T>, a: Action<T>)
    requires Safe(s) && Enabled(s, a)
    ensures Safe(Next(s, a))
  {
    if a.Look? {
      OnceLook(s, a);
      WakefulWorker(s, a);
    } else if a.Finish? {
      OnceFinish(s, a);
      WakefulWorker(s, a);
    } else {
      OnceOther(s, a);
      if a.NotifyOne? || a.Spurious? {
        WakefulWorker(s, a);
      } else {
        WakefulMain(s, a);
      }
    }
  }

  lemma {:induction false} SafeRun<T>(ss: seq<State<T>>, acts: seq<Action<T>>)
    requires IsRun(ss, acts)
    ensures Safe(ss[|acts|])
    decreases |acts|
  {
    if acts != [] {
      var n := |acts| - 1;
      SafeRun(ss[..n + 1], acts[..n]);
      SafeStep(ss[n], acts[n]);
    }
  }

  /** In every run: tasks are taken first in, first out, none twice, and no wakeup is lost, except
      that once all tasks from before `stop` have been taken, later ones may be left in the queue. */
  lemma FifoExactlyOnce<T>(ss: seq<State<T>>, acts: seq<Action<T>>)
    requires IsRun(ss, acts)
    ensures var s := ss[|acts|];
      && s.fetched <= s.enqueued && Once(s)
      && (s.tasks != [] && !(s.stop && s.atStop <= |s.fetched|) ==> SomeBusy(s) || s.owedOne > 0 || s.owedAll > 0)
  {
    SafeRun(ss, acts);
  }

  // ----- `stop`

  ghost predicate AllExited<T>(s: State<T>) {
    forall w :: 0 <= w < |s.workers| ==> s.workers[w].Exited?
  }

  /** After the first `stop`, `atStop` is the number of tasks enqueued before it. */
  lemma {:induction false} AtStopCounts<T>(ss: seq<State<T>>, acts: seq<Action<T>>, i: nat)
    requires IsRun(ss, acts) && i < |acts| && acts[i].Stop? && !ss[i].stop
    ensures ss[|acts|].stop && ss[|acts|].atStop == |ss[i].enqueued| && ss[i].enqueued <= ss[|acts|].enqueued
    decreases |acts|
  {
    var n := |acts| - 1;
    if i < n {
      AtStopCounts(ss[..n + 1], acts[..n], i);
    }
  }

  /** `stop` returns when all workers have been joined: then every task enqueued before the first
      call of `stop` has been executed. */
  lemma AllDoneAtStop<T>(ss: seq<State<T>>, acts: seq<Action<T>>, i: nat, k: nat)
    requires IsRun(ss, acts) && i < |acts| && acts[i].Stop? && !ss[i].stop
    requires AllExited(ss[|acts|]) && k < |ss[i].enqueued|
    ensures ss[i].enqueued <= ss[|acts|].enqueued && k in ss[|acts|].finished
  {
    SafeRun(ss, acts);
    AtStopCounts(ss, acts, i);
    DoneWhenLeft(ss[|acts|], k);
  }

  lemma DoneWhenLeft<T>(s: State<T>, k: nat)
    requires Safe(s) && AllExited(s) && k < s.atStop
    ensures k in s.finished
  {
    assert s.workers[0].Exited?;
    assert forall w: nat :: !RunsTask(s, w, k);
  }

  // ----- progress: the steps the pool owes come to an end, and then nothing is left to do

  /** A step that nobody outside the pool has to start. */
  predicate Own<T>(a: Action<T>) {
    !a.Enqueue? && !a.Stop? && !a.Spurious?
  }

  function WorkerWeight<T>(w: Worker<T>): nat {
    match w
    case Exited => 0
    case Waiting => 1
    case Awake => 2
    case Running(_, _) => 3
  }

  function Weight<T>(ws: seq<Worker<T>>): nat {
    if ws == [] then 0 else Weight(ws[..|ws| - 1]) + WorkerWeight(ws[|ws| - 1])
  }

  lemma {:induction false} WeightUpdate<T>(ws: seq<Worker<T>>, i: nat, w: Worker<T>)
    requires i < |ws|
    ensures Weight(ws[i := w]) == Weight(ws) - WorkerWeight(ws[i]) + WorkerWeight(w)
    decreases |ws|
  {
    var n := |ws| - 1;
    if i == n {
      assert ws[i := w][..n] == ws[..n];
    } else {
      assert ws[i := w][..n] == ws[..n][i := w];
      WeightUpdate(ws[..n], i, w);
    }
  }

  lemma {:induction false} WeightWakeAll<T>(ws: seq<Worker<T>>)
    ensures Weight(WakeAll(ws)) <= Weight(ws) + |ws|
    decreases |ws|
  {
    if ws != [] {
      var n := |ws| - 1;
      assert WakeAll(ws)[..n] == WakeAll(ws[..n]);
      WeightWakeAll(ws[..n]);
    }
  }

  /** `owedAll` notifications wake up to `|workers|` threads each. */
  function AllDebt(n: nat, owedAll: nat): nat {
    if owedAll == 0 then 0 else AllDebt(n, owedAll - 1) + n + 1
  }

  /** What is left to do. */
  function Measure<T>(s: State<T>): nat {
    2 * |s.tasks| + 2 * s.owedOne + AllDebt(|s.workers|, s.owedAll) + Weight(s.workers)
  }

  lemma OwnStepsEnd<T>(s: State<T>, a: Action<T>)
    requires Enabled(s, a) && Own(a)
    ensures Measure(Next(s, a)) < Measure(s)
  {
    var t := Next(s, a);
    if a.NotifyAll? {
      WeightWakeAll(s.workers);
    } else if !a.NotifyNobody? {
      WeightUpdate(s.workers, a.w, t.workers[a.w]);
      assert t.workers == s.workers[a.w := t.workers[a.w]];
    }
  }

  /** A run of `acts` from `s`. */
  function After<T>(s: State<T>, acts: seq<Action<T>>): (r: (bool, State<T>))
    decreases |acts|
  {
    if acts == [] then (true, s)
    else if Enabled(s, acts[0]) then After(Next(s, acts[0]), acts[1..])
    else (false, s)
  }

  /** However the threads are scheduled, after at most `Measure(s)` of its own steps the pool has
      none left. */
  lemma {:induction false} OwnRunsAreBounded<T>(s: State<T>, acts: seq<Action<T>>)
    requires After(s, acts).0 && forall i :: 0 <= i < |acts| ==> Own(acts[i])
    ensures |acts| <= Measure(s)
    decreases |acts|
  {
    if acts != [] {
      OwnStepsEnd(s, acts[0]);
      OwnRunsAreBounded(Next(s, acts[0]), acts[1..]);
    }
  }

  ghost predicate AtRest<T(!new)>(s: State<T>) {
    forall a: Action<T> :: Enabled(s, a) ==> !Own(a)
  }

  /** At rest: before `stop`, all workers wait and every task is done; after it, all workers have
      left, `stop` returns, and every task that was enqueued before it is done. */
  lemma RestMeansDone<T(!new)>(ss: seq<State<T>>, acts: seq<Action<T>>)
    requires IsRun(ss, acts) && AtRest(ss[|acts|])
    ensures var s := ss[|acts|];
      && (s.stop ==> AllExited(s) && forall k: nat :: k < s.atStop ==> k in s.finished)
      && (!s.stop ==> s.tasks == [] && forall k: nat :: k < |s.enqueued| ==> k in s.finished)
  {
    var s := ss[|acts|];
    SafeRun(ss, acts);
    NobodyBusy(s);
    if s.stop {
      forall k: nat | k < s.atStop
        ensures k in s.finished
      {
        DoneWhenLeft(s, k);
      }
    } else {
      forall k: nat | k < |s.enqueued|
        ensures k in s.finished
      {
        forall w: nat
          ensures !RunsTask(s, w, k)
        {
          assert w < |s.workers| ==> !Busy(s.workers[w]);
        }
      }
    }
  }

  lemma NobodyBusy<T(!new)>(s: State<T>)
    requires Safe(s) && AtRest(s)
    ensures !SomeBusy(s) && s.owedOne == 0 && s.owedAll == 0
    ensures s.stop ==> AllExited(s)
  {
    if SomeBusy(s) || s.owedOne > 0 || s.owedAll > 0 {
      SomeStepLeft(s);
    }
  }

  lemma SomeStepLeft<T(!new)>(s: State<T>)
    requires SomeBusy(s) || s.owedOne > 0 || s.owedAll > 0
    ensures !AtRest(s)
  {
    var a: Action<T> := NotifyAll;
    if w :| 0 <= w < |s.workers| && Busy(s.workers[w]) {
      a := if s.workers[w].Awake? then Look(w) else Finish(w);
    } else if s.owedOne > 0 {
      a := NotifyNobody;
      if w: nat :| w < |s.workers| && s.workers[w].Waiting? {
        a := NotifyOne(w);
      }
    }
    assert Enabled(s, a) && Own(a);
  }
}
