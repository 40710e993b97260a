/**
 * ThreadPool of file_server/httplib.h: producers call enqueue, workers take jobs, and one thread
 * calls shutdown.  What is done under the mutex is one step; notifications are steps of their own.
 */
module ThreadPool {
  /** A worker: about to lock the mutex, waiting on the condition variable, in a job (by number), or returned. */
  datatype Worker = Ready | Asleep | Running(job: nat) | Done

  /** A producer: outside enqueue, or between its critical section and notify_one. */
  datatype Producer = Idle | NotifyDue

  /** The thread that calls shutdown: before, between the critical section and notify_all, joining, after. */
  datatype Closer = Open | NotifyAllDue | Joining | Closed

  /**
   * Jobs are named by the order in which they were accepted: `accepted` of them so far, of which
   * the first `taken` were taken from the queue, so that the queue holds those in between.
   * `ran` are those that have returned, and `late` is the number accepted before shutdown.
   */
  datatype State = State(
    jobs: seq<nat>, shutdown: bool, workers: seq<Worker>, producers: seq<Producer>, closer: Closer,
    accepted: nat, taken: nat, ran: seq<nat>, late: nat)

  datatype Action =
    | Enqueue(p: nat)
    | Notify(p: nat, w: nat)
    | Work(w: nat)
    | Spurious(w: nat)
    | Shutdown

  /** A notification of `w` is possible if it sleeps, or if nobody does. */
  ghost predicate CanNotify(workers: seq<Worker>, w: nat) {
    w < |workers| && (workers[w].Asleep? || forall i :: 0 <= i < |workers| ==> !workers[i].Asleep?)
  }

  function Woke(w: Worker): Worker {
    if w.Asleep? then Ready else w
  }

  function WakeAll(workers: seq<Worker>): (r: seq<Worker>)
    ensures |r| == |workers| && forall i :: 0 <= i < |r| ==> r[i] == Woke(workers[i])
  {
    if workers == [] then [] else WakeAll(workers[..|workers| - 1]) + [Woke(workers[|workers| - 1])]
  }

  /** The critical section of enqueue; `max` is max_queued_requests_. */
  function OnEnqueue(max: nat, s: State, p: nat): State
    requires p < |s.producers|
  {
    if s.producers[p] != Idle || (max > 0 && |s.jobs| >= max) then s
    else s.(jobs := s.jobs + [s.accepted], accepted := s.accepted + 1, producers := s.producers[p := NotifyDue])
  }

  ghost function OnNotify(s: State, p: nat, w: nat): State
    requires p < |s.producers|
  {
    if s.producers[p] != NotifyDue then s
    else if |s.workers| == 0 then s.(producers := s.producers[p := Idle])
    else if !CanNotify(s.workers, w) then s
    else s.(producers := s.producers[p := Idle], workers := s.workers[w := Woke(s.workers[w])])
  }

  /** The loop of a worker: the wait predicate and what follows it under the mutex, or the end of a job. */
  function OnWork(s: State, w: nat): State
    requires w < |s.workers|
  {
    match s.workers[w]
    case Ready =>
      if s.jobs != [] then
        s.(jobs := s.jobs[1..], taken := s.taken + 1, workers := s.workers[w := Running(s.jobs[0])])
      else s.(workers := s.workers[w := if s.shutdown then Done else Asleep])
    case Running(j) => s.(ran := s.ran + [j], workers := s.workers[w := Ready])
    case Asleep => s
    case Done => s
  }

  ghost predicate AllDone(s: State) {
    forall i :: 0 <= i < |s.workers| ==> s.workers[i].Done?
  }

  ghost function OnShutdown(s: State): State {
    match s.closer
    case Open => s.(shutdown := true, closer := NotifyAllDue, late := s.accepted)
    case NotifyAllDue => s.(closer := Joining, workers := WakeAll(s.workers))
    case Joining => if AllDone(s) then s.(closer := Closed) else s
    case Closed => s
  }

  ghost function Step(max: nat, s: State, a: Action): State {
    match a
    case Enqueue(p) => if p < |s.producers| then OnEnqueue(max, s, p) else s
    case Notify(p, w) => if p < |s.producers| then OnNotify(s, p, w) else s
    case Work(w) => if w < |s.workers| then OnWork(s, w) else s
    case Spurious(w) => if w < |s.workers| then s.(workers := s.workers[w := Woke(s.workers[w])]) else s
    case Shutdown => OnShutdown(s)
  }

  function Init(n: nat, producers: nat): State {
    State([], false, seq(n, _ => Ready), seq(producers, _ => Idle), Open, 0, 0, [], 0)
  }

  ghost function Run(max: nat, n: nat, producers: nat, schedule: seq<Action>, k: nat): (s: State)
    requires k <= |schedule|
    ensures |s.workers| == n
  {
    if k == 0 then Init(n, producers) else Step(max, Run(max, n, producers, schedule, k - 1), schedule[k - 1])
  }

  // ---------------------------------------------------------------- the queue and the jobs

  /** First in, first out, and no longer than allowed. */
  ghost predicate QueueInv(max: nat, s: State) {
    && s.taken + |s.jobs| == s.accepted
    && (forall k :: 0 <= k < |s.jobs| ==> s.jobs[k] == s.taken + k)
    && (max > 0 ==> |s.jobs| <= max)
    && s.late <= s.accepted
  }

  /** The job is in the hands of some worker. */
  ghost predicate InHand(s: State, j: nat) {
    exists w :: 0 <= w < |s.workers| && s.workers[w] == Running(j)
  }

  /** A job that was taken has returned, or one worker has it; never both, and never twice. */
  ghost predicate JobsInv(s: State) {
    && (forall j: nat :: j < s.taken ==> j in s.ran || InHand(s, j))
    && (forall i :: 0 <= i < |s.ran| ==> s.ran[i] < s.taken)
    && (forall i, k :: 0 <= i < k < |s.ran| ==> s.ran[i] != s.ran[k])
    && (forall w :: 0 <= w < |s.workers| && s.workers[w].Running? ==>
          s.workers[w].job < s.taken && s.workers[w].job !in s.ran)
    && (forall v, w :: 0 <= v < w < |s.workers| && s.workers[v].Running? ==> s.workers[v] != s.workers[w])
  }

  /** Shutting down: a worker returns only when all jobs accepted before are taken, and none sleeps for ever. */
  ghost predicate ClosingInv(s: State) {
    && (s.shutdown <==> !s.closer.Open?)
    && (forall w :: 0 <= w < |s.workers| && s.workers[w].Done? ==> s.shutdown && s.taken >= s.late)
    && (forall w :: 0 <= w < |s.workers| && s.workers[w].Asleep? ==> !s.shutdown || s.closer.NotifyAllDue?)
    && (s.closer.Closed? ==> AllDone(s))
  }

  function ReadyCount(workers: seq<Worker>): nat {
    if workers == [] then 0
    else ReadyCount(workers[..|workers| - 1]) + if workers[|workers| - 1].Ready? then 1 else 0
  }

  function DueCount(producers: seq<Producer>): nat {
    if producers == [] then 0
    else DueCount(producers[..|producers| - 1]) + if producers[|producers| - 1].NotifyDue? then 1 else 0
  }

  lemma {:induction false} ReadyUpdate(workers: seq<Worker>, w: nat, x: Worker)
    requires w < |workers|
    ensures ReadyCount(workers[w := x])
         == ReadyCount(workers) - (if workers[w].Ready? then 1 else 0) + if x.Ready? then 1 else 0
  {
    var n := |workers| - 1;
    if w < n {
      ReadyUpdate(workers[..n], w, x);
      assert workers[w := x][..n] == workers[..n][w := x];
    } else {
      assert workers[w := x][..n] == workers[..n];
    }
  }

  lemma {:induction false} DueUpdate(producers: seq<Producer>, p: nat, x: Producer)
    requires p < |producers|
    ensures DueCount(producers[p := x])
         == DueCount(producers) - (if producers[p].NotifyDue? then 1 else 0) + if x.NotifyDue? then 1 else 0
  {
    var n := |producers| - 1;
    if p < n {
      DueUpdate(producers[..n], p, x);
      assert producers[p := x][..n] == producers[..n][p := x];
    } else {
      assert producers[p := x][..n] == producers[..n];
    }
  }

  ghost predicate Sleeper(s: State) {
    exists w :: 0 <= w < |s.workers| && s.workers[w].Asleep?
  }

  /** While a worker sleeps, every waiting job has a notification due or a worker about to look at the queue. */
  ghost predicate WakeInv(s: State) {
    Sleeper(s) ==> |s.jobs| <= DueCount(s.producers) + ReadyCount(s.workers)
  }

  ghost predicate Inv(max: nat, s: State) {
    QueueInv(max, s) && JobsInv(s) && ClosingInv(s) && WakeInv(s)
  }

  lemma {:induction false} QueueKeeps(max: nat, s: State, a: Action)
    requires QueueInv(max, s)
    ensures QueueInv(max, Step(max, s, a))
  {
  }

  /** A worker changes in a way that has nothing to do with jobs. */
  lemma {:induction false} JobsKeepChange(s: State, q: State)
    requires JobsInv(s) && q.taken == s.taken && q.ran == s.ran && |q.workers| == |s.workers|
    requires forall w :: 0 <= w < |s.workers| ==>
               (q.workers[w].Running? || s.workers[w].Running? ==> q.workers[w] == s.workers[w])
    ensures JobsInv(q)
  {
    forall j: nat | j < q.taken ensures j in q.ran || InHand(q, j) {
      if j !in s.ran {
        assert InHand(s, j);
        var w :| 0 <= w < |s.workers| && s.workers[w] == Running(j);
        assert q.workers[w] == Running(j);
      }
    }
  }

  lemma {:induction false} JobsKeepTake(max: nat, s: State, w: nat)
    requires JobsInv(s) && QueueInv(max, s) && w < |s.workers| && s.workers[w].Ready? && s.jobs != []
    ensures JobsInv(OnWork(s, w))
  {
    var q := OnWork(s, w);
    forall j: nat | j < q.taken ensures j in q.ran || InHand(q, j) {
      if j == s.taken {
        assert q.workers[w] == Running(j);
      } else if j !in s.ran {
        assert InHand(s, j);
        var v :| 0 <= v < |s.workers| && s.workers[v] == Running(j);
        assert q.workers[v] == Running(j);
      }
    }
  }

  lemma {:induction false} JobsKeepReturn(s: State, w: nat)
    requires JobsInv(s) && w < |s.workers| && s.workers[w].Running?
    ensures JobsInv(OnWork(s, w))
  {
    var q := OnWork(s, w);
    var done := s.workers[w].job;
    assert q.ran == s.ran + [done];
    forall j: nat | j < q.taken ensures j in q.ran || InHand(q, j) {
      if j in s.ran {
        var i :| 0 <= i < |s.ran| && s.ran[i] == j;
        assert q.ran[i] == j;
      } else if j == done {
        assert q.ran[|s.ran|] == j;
      } else {
        assert InHand(s, j);
        var v :| 0 <= v < |s.workers| && s.workers[v] == Running(j);
        assert q.workers[v] == Running(j);
      }
    }
  }

  lemma {:induction false} JobsKeep(max: nat, s: State, a: Action)
    requires JobsInv(s) && QueueInv(max, s)
    ensures JobsInv(Step(max, s, a))
  {
    hide JobsInv, QueueInv;
    if a.Work? && a.w < |s.workers| && s.workers[a.w].Ready? && s.jobs != [] {
      JobsKeepTake(max, s, a.w);
    } else if a.Work? && a.w < |s.workers| && s.workers[a.w].Running? {
      JobsKeepReturn(s, a.w);
    } else {
      JobsKeepChange(s, Step(max, s, a));
    }
  }

  lemma {:induction false} ClosingKeeps(max: nat, s: State, a: Action)
    requires ClosingInv(s) && QueueInv(max, s)
    ensures ClosingInv(Step(max, s, a))
  {
    assert s.closer.Closed? ==> AllDone(s);
  }

  lemma {:induction false} WakeKeeps(max: nat, s: State, a: Action)
    requires WakeInv(s)
    ensures WakeInv(Step(max, s, a))
  {
    hide ReadyCount, DueCount;
    var q := Step(max, s, a);
    match a
    case Enqueue(p) => if p < |s.producers| { DueUpdate(s.producers, p, NotifyDue); }
    case Notify(p, w) =>
      if p < |s.producers| {
        DueUpdate(s.producers, p, Idle);
        if w < |s.workers| {
          ReadyUpdate(s.workers, w, Woke(s.workers[w]));
          if !s.workers[w].Asleep? { assert s.workers[w := Woke(s.workers[w])] == s.workers; }
        }
      }
    case Work(w) => if w < |s.workers| { ReadyUpdate(s.workers, w, q.workers[w]); }
    case Spurious(w) => if w < |s.workers| { ReadyUpdate(s.workers, w, q.workers[w]); }
    case Shutdown =>
  }

  lemma {:induction false} StepKeeps(max: nat, s: State, a: Action)
    requires Inv(max, s)
    ensures Inv(max, Step(max, s, a)) && |Step(max, s, a).workers| == |s.workers|
  {
    hide QueueInv, JobsInv, ClosingInv, WakeInv;
    QueueKeeps(max, s, a);
    JobsKeep(max, s, a);
    ClosingKeeps(max, s, a);
    WakeKeeps(max, s, a);
  }

  lemma {:induction false} InitInv(max: nat, n: nat, producers: nat)
    ensures Inv(max, Init(n, producers))
  {
  }

  lemma {:induction false} RunKeeps(max: nat, n: nat, producers: nat, schedule: seq<Action>, k: nat)
    requires k <= |schedule|
    ensures Inv(max, Run(max, n, producers, schedule, k)) && |Run(max, n, producers, schedule, k).workers| == n
  {
    hide Inv, Step;
    if k == 0 {
      InitInv(max, n, producers);
      InitSize(n, producers);
    } else {
      RunKeeps(max, n, producers, schedule, k - 1);
      StepKeeps(max, Run(max, n, producers, schedule, k - 1), schedule[k - 1]);
    }
  }

  lemma InitSize(n: nat, producers: nat)
    ensures |Init(n, producers).workers| == n
  {
  }

  // ---------------------------------------------------------------- the guarantees

  /**
   * In every run jobs are taken in the order in which they were accepted, each by one worker
   * and once, and a positive limit on the queue is kept.
   */
  lemma {:induction false} OnceAndInOrder(max: nat, n: nat, producers: nat, schedule: seq<Action>)
    ensures var s := Run(max, n, producers, schedule, |schedule|);
            && |s.jobs| == s.accepted - s.taken && (forall k :: 0 <= k < |s.jobs| ==> s.jobs[k] == s.taken + k)
            && (max > 0 ==> |s.jobs| <= max)
            && (forall i, k :: 0 <= i < k < |s.ran| ==> s.ran[i] != s.ran[k])
            && (forall j: nat :: j < s.taken <==> j in s.ran || InHand(s, j))
            && (forall j: nat :: !(j in s.ran && InHand(s, j)))
  {
    RunKeeps(max, n, producers, schedule, |schedule|);
  }

  /** With jobs waiting, the workers are never all asleep unless a notification is due. */
  lemma {:induction false} NeverAllAsleep(max: nat, n: nat, producers: nat, schedule: seq<Action>)
    requires n > 0
    ensures var s := Run(max, n, producers, schedule, |schedule|);
            s.jobs != [] && (forall w :: 0 <= w < n ==> s.workers[w].Asleep?)
            ==> exists p :: 0 <= p < |s.producers| && s.producers[p].NotifyDue?
  {
    hide Run;
    RunKeeps(max, n, producers, schedule, |schedule|);
    var s := Run(max, n, producers, schedule, |schedule|);
    if s.jobs != [] && forall w :: 0 <= w < n ==> s.workers[w].Asleep? {
      assert s.workers[0].Asleep?;
      NoneReady(s.workers);
      SomeDue(s.producers);
    }
  }

  lemma {:induction false} NoneReady(workers: seq<Worker>)
    requires forall w :: 0 <= w < |workers| ==> workers[w].Asleep?
    ensures ReadyCount(workers) == 0
  {
    if workers != [] { NoneReady(workers[..|workers| - 1]); }
  }

  lemma {:induction false} SomeDue(producers: seq<Producer>)
    ensures DueCount(producers) > 0 ==> exists p :: 0 <= p < |producers| && producers[p].NotifyDue?
  {
    if producers != [] && !producers[|producers| - 1].NotifyDue? {
      var init := producers[..|producers| - 1];
      SomeDue(init);
      if DueCount(init) > 0 {
        var p :| 0 <= p < |init| && init[p].NotifyDue?;
        assert producers[p].NotifyDue?;
      }
    }
  }

  /** Workers return only when every job accepted before shutdown has been taken, and no worker sleeps through it. */
  lemma {:induction false} ReturnsOnlyDrained(max: nat, n: nat, producers: nat, schedule: seq<Action>, w: nat)
    requires w < n
    ensures var s := Run(max, n, producers, schedule, |schedule|);
            && (s.workers[w].Done? ==> s.shutdown && s.late <= s.taken)
            && (s.workers[w].Asleep? && s.shutdown ==> s.closer.NotifyAllDue?)
  {
    RunKeeps(max, n, producers, schedule, |schedule|);
  }

  /**
   * When shutdown returns, every job accepted before it was called has run, if the pool has a
   * worker at all.
   */
  lemma {:induction false} ShutdownDrains(max: nat, n: nat, producers: nat, schedule: seq<Action>, k: nat, j: nat)
    requires n > 0 && k <= |schedule| && Run(max, n, producers, schedule, k).closer.Open?
    requires j < Run(max, n, producers, schedule, k).accepted
    ensures var s := Run(max, n, producers, schedule, |schedule|); s.closer.Closed? ==> j in s.ran
  {
    hide Run;
    RunKeeps(max, n, producers, schedule, |schedule|);
    LateGrows(max, n, producers, schedule, k, |schedule|);
    var s := Run(max, n, producers, schedule, |schedule|);
    if s.closer.Closed? { assert s.workers[0].Done?; }
  }

  lemma {:induction false} LateGrows(max: nat, n: nat, producers: nat, schedule: seq<Action>, k: nat, m: nat)
    requires k <= m <= |schedule| && Run(max, n, producers, schedule, k).closer.Open?
    ensures var s, q := Run(max, n, producers, schedule, k), Run(max, n, producers, schedule, m);
            s.accepted <= if q.closer.Open? then q.accepted else q.late
  {
    if k < m { LateGrows(max, n, producers, schedule, k, m - 1); }
  }

  /**
   * In every run, a producer that calls enqueue is refused if and only if there is a limit and that
   * many jobs wait; otherwise its job is the last in the queue, and it has a notification to send.
   */
  lemma {:induction false} AcceptedIfRoom(max: nat, n: nat, producers: nat, schedule: seq<Action>, p: nat)
    requires p < |Run(max, n, producers, schedule, |schedule|).producers|
    requires Run(max, n, producers, schedule, |schedule|).producers[p].Idle?
    ensures var s := Run(max, n, producers, schedule, |schedule|); var q := Step(max, s, Enqueue(p));
            if max > 0 && s.accepted - s.taken == max then q == s
            else
              && q.accepted == s.accepted + 1 && q.jobs == s.jobs + [s.accepted]
              && q.producers[p].NotifyDue? && q.workers == s.workers
  {
    RunKeeps(max, n, producers, schedule, |schedule|);
  }

  /** Without one, a job is accepted and shutdown returns, but the job never runs. */
  lemma {:induction false} NoWorkerNoJob(max: nat)
    ensures var s := Run(max, 0, 1, [Enqueue(0), Shutdown, Shutdown, Shutdown], 4);
            s.closer.Closed? && s.late == 1 && s.ran == []
  {
    var z := [Enqueue(0), Shutdown, Shutdown, Shutdown];
    var s0 := Init(0, 1);
    assert Run(max, 0, 1, z, 0) == s0;
    var s1 := s0.(jobs := s0.jobs + [0], accepted := 1, producers := s0.producers[0 := NotifyDue]);
    assert Run(max, 0, 1, z, 1) == s1;
    var s2 := s1.(shutdown := true, closer := NotifyAllDue, late := 1);
    assert Run(max, 0, 1, z, 2) == s2;
    var s3 := s2.(closer := Joining, workers := WakeAll(s2.workers));
    assert Run(max, 0, 1, z, 3) == s3;
  }

  function Rank(w: Worker): nat {
    match w case Ready => 1 case Asleep => 1 case Running(_) => 2 case Done => 0
  }

  function Ranks(workers: seq<Worker>): nat {
    if workers == [] then 0 else Ranks(workers[..|workers| - 1]) + Rank(workers[|workers| - 1])
  }

  lemma {:induction false} RanksUpdate(workers: seq<Worker>, w: nat, x: Worker)
    requires w < |workers|
    ensures Ranks(workers[w := x]) == Ranks(workers) - Rank(workers[w]) + Rank(x)
  {
    var n := |workers| - 1;
    if w < n {
      RanksUpdate(workers[..n], w, x);
      assert workers[w := x][..n] == workers[..n][w := x];
    } else {
      assert workers[w := x][..n] == workers[..n];
    }
  }

  function WorkLeft(s: State): nat {
    3 * |s.jobs| + Ranks(s.workers)
  }

  /**
   * Once shutdown has notified everybody, each worker that has not returned can go on, and doing so
   * brings the end nearer.
   */
  lemma {:induction false} DrainEnds(max: nat, s: State, w: nat)
    requires Inv(max, s) && w < |s.workers| && s.closer.Joining? && !s.workers[w].Done?
    ensures WorkLeft(OnWork(s, w)) < WorkLeft(s)
  {
    hide Ranks;
    assert !s.workers[w].Asleep?;
    RanksUpdate(s.workers, w, OnWork(s, w).workers[w]);
  }
}
