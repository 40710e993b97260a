/**
 * The wakeup protocol of myserver/common/event_loop.cpp: other threads queue functors for the
 * thread that runs loop, which blocks in poll until its eventfd is readable.  One step is one
 * access to the pending list (under its mutex), to the eventfd or to a shared flag.
 */
module EventLoop {
  /** A functor, and whether the loop thread itself queued it while it was not in loop. */
  datatype Functor = Functor(id: nat, outside: bool)

  datatype LoopPc =
    | Outside               // not in loop
    | Test                  // about to test m_quit
    | Poll                  // in poll
    | Handle(wake: bool)    // handling events; `wake` if the eventfd was among them and is not read yet
    | Mark                  // about to set m_callPendingFunctors
    | Swap                  // about to take the pending list
    | Next                  // between two functors
    | Running               // in a functor

  /** What a thread still has to do of queueInLoop or quit: the second half, which may call wakeup. */
  datatype Half = Whole | AfterPush | AfterQuit

  /**
   * The fields of EventLoop with the counter of the eventfd, where the loop thread and the other
   * threads are, and as history what was ever queued and executed, in order.
   */
  datatype State = State(
    pending: seq<Functor>, calling: bool, quit: bool, count: nat,
    pc: LoopPc, half: Half, batch: seq<Functor>,
    others: seq<Half>,
    queued: seq<Functor>, executed: seq<Functor>, swapped: nat)

  datatype Action =
    | Queue(id: nat)        // queueInLoop up to the end of its critical section
    | Quit                  // quit up to the assignment
    | Second                // the second half of either
    | Step                  // the next step of loop

  /** The largest value of an eventfd: a write that would exceed it fails, as the descriptor does not block. */
  const MAX_COUNT := 0xFFFF_FFFF_FFFF_FFFE

  function Wakeup(count: nat): nat {
    if count < MAX_COUNT then count + 1 else count
  }

  /** The critical section of queueInLoop. */
  function Push(s: State, f: Functor): State {
    s.(pending := s.pending + [f], queued := s.queued + [f])
  }

  /** In the loop thread, user code runs outside loop, in event handlers and in functors. */
  predicate InUserCode(pc: LoopPc) {
    pc.Outside? || pc.Handle? || pc.Running?
  }

  /**
   * The next step of loop and doPendingFunctors; poll may return at any time, as there are other
   * events and a timeout.
   */
  function OnStep(s: State): State {
    match s.pc
    case Outside => s.(quit := false, pc := Test)
    case Test => s.(pc := if s.quit then Outside else Poll)
    case Poll => s.(pc := Handle(s.count > 0))
    case Handle(wake) => if wake then s.(count := 0, pc := Handle(false)) else s.(pc := Mark)
    case Mark => s.(calling := true, pc := Swap)
    case Swap => s.(batch := s.pending, pending := [], pc := Next, swapped := |s.queued|)
    case Next =>
      if s.batch == [] then s.(calling := false, pc := Test)
      else s.(executed := s.executed + [s.batch[0]], batch := s.batch[1..], pc := Running)
    case Running => s.(pc := Next)
  }

  /** The loop thread does `a`. */
  function OnLoopThread(s: State, a: Action): State {
    match a
    case Queue(id) =>
      if s.half.Whole? && InUserCode(s.pc) then Push(s, Functor(id, s.pc.Outside?)).(half := AfterPush) else s
    case Quit =>
      if s.half.Whole? && InUserCode(s.pc) then s.(quit := true, half := AfterQuit) else s
    case Second =>
      if s.half.Whole? then s
      else if s.half.AfterQuit? || s.calling then s.(count := Wakeup(s.count), half := Whole)
      else s.(half := Whole)
    case Step => if s.half.Whole? then OnStep(s) else s
  }

  /** Another thread does `a`; its quit does not wake the loop. */
  function OnOther(s: State, t: nat, a: Action): State
    requires t < |s.others|
  {
    match a
    case Queue(id) =>
      if s.others[t].Whole? then Push(s, Functor(id, false)).(others := s.others[t := AfterPush]) else s
    case Quit => if s.others[t].Whole? then s.(quit := true) else s
    case Second =>
      if s.others[t].AfterPush? then s.(count := Wakeup(s.count), others := s.others[t := Whole]) else s
    case Step => s
  }

  function Init(n: nat): State {
    State([], false, false, 0, Outside, Whole, [], seq(n, _ => Whole), [], [], 0)
  }

  /** A turn: thread 0 is the loop thread, thread `t` is the other thread `t - 1`. */
  function Turn(s: State, t: nat, a: Action): State {
    if t == 0 then OnLoopThread(s, a) else if t <= |s.others| then OnOther(s, t - 1, a) else s
  }

  type Schedule = seq<(nat, Action)>

  function Run(n: nat, schedule: Schedule, k: nat): State
    requires k <= |schedule|
  {
    if k == 0 then Init(n) else Turn(Run(n, schedule, k - 1), schedule[k - 1].0, schedule[k - 1].1)
  }

  // ---------------------------------------------------------------- what every step keeps

  /** Some other thread has queued a functor and will now wake the loop. */
  ghost predicate WakeupDue(s: State) {
    exists t :: 0 <= t < |s.others| && s.others[t].AfterPush?
  }

  /** The pending list will be taken before the next poll. */
  predicate WillSwap(s: State) {
    s.pc.Handle? || s.pc.Mark? || s.pc.Swap?
  }

  /** Something is pending that did not come from the loop thread outside loop. */
  ghost predicate Waiting(s: State) {
    exists i :: 0 <= i < |s.pending| && !s.pending[i].outside
  }

  ghost predicate Signalled(s: State) {
    s.count > 0 || WakeupDue(s) || WillSwap(s) || (s.calling && s.half.AfterPush?)
  }

  ghost predicate Inv(s: State) {
    && s.executed + s.batch + s.pending == s.queued
    && |s.executed| + |s.batch| == s.swapped
    && (s.batch != [] ==> s.pc.Next? || s.pc.Running?)
    && (s.calling <==> s.pc.Swap? || s.pc.Next? || s.pc.Running?)
    && (!s.half.Whole? ==> InUserCode(s.pc))
    && (Waiting(s) ==> Signalled(s))
  }

  lemma {:induction false} StepKeeps(s: State)
    requires Inv(s) && s.half.Whole?
    ensures Inv(OnStep(s))
  {
    var q := OnStep(s);
    if s.pc.Next? && s.batch != [] {
      assert q.executed + q.batch == s.executed + s.batch;
    }
    if s.pc.Swap? {
      assert s.executed + s.batch + s.pending == s.executed + s.pending == q.executed + q.batch + q.pending;
    }
    if Waiting(q) { StillWaiting(q, s); }
    if WakeupDue(s) { StillDue(s, q); }
  }

  lemma StillWaiting(s: State, q: State)
    requires Waiting(s) && (s.pending == q.pending)
    ensures Waiting(q)
  {
    var i :| 0 <= i < |s.pending| && !s.pending[i].outside;
    assert !q.pending[i].outside;
  }

  lemma StillDue(s: State, q: State)
    requires WakeupDue(s) && s.others == q.others
    ensures WakeupDue(q)
  {
    var t :| 0 <= t < |s.others| && s.others[t].AfterPush?;
    assert q.others[t].AfterPush?;
  }

  lemma PushKeeps(s: State, f: Functor)
    requires s.executed + s.batch + s.pending == s.queued
    ensures var q := Push(s, f);
            q.executed + q.batch + q.pending == q.queued && (Waiting(q) ==> !f.outside || Waiting(s))
  {
    assert s.executed + s.batch + (s.pending + [f]) == s.executed + s.batch + s.pending + [f];
    var q := Push(s, f);
    if Waiting(q) && f.outside {
      var i :| 0 <= i < |q.pending| && !q.pending[i].outside;
      assert i < |s.pending| && !s.pending[i].outside;
    }
  }

  lemma LoopThreadKeeps(s: State, a: Action)
    requires Inv(s)
    ensures Inv(OnLoopThread(s, a)) && |OnLoopThread(s, a).others| == |s.others|
  {
    var q := OnLoopThread(s, a);
    if a.Step? { if s.half.Whole? { StepKeeps(s); } }
    else {
      if a.Queue? { PushKeeps(s, Functor(a.id, s.pc.Outside?)); }
      else if Waiting(q) { StillWaiting(q, s); }
      if WakeupDue(s) { StillDue(s, q); }
    }
  }

  lemma OtherKeeps(s: State, t: nat, a: Action)
    requires Inv(s) && t < |s.others|
    ensures Inv(OnOther(s, t, a)) && |OnOther(s, t, a).others| == |s.others|
  {
    var q := OnOther(s, t, a);
    if a.Queue? && s.others[t].Whole? {
      PushKeeps(s, Functor(a.id, false));
      assert q.others[t].AfterPush?;
    } else {
      if Waiting(q) { StillWaiting(q, s); }
      if q.others == s.others && WakeupDue(s) { StillDue(s, q); }
    }
  }

  lemma InitInv(n: nat)
    ensures Inv(Init(n))
  {
  }

  lemma {:induction false} RunKeeps(n: nat, schedule: Schedule, k: nat)
    requires k <= |schedule|
    ensures Inv(Run(n, schedule, k)) && |Run(n, schedule, k).others| == n
  {
    hide Inv, OnLoopThread, OnOther;
    if k == 0 {
      InitInv(n);
    } else {
      RunKeeps(n, schedule, k - 1);
      var s := Run(n, schedule, k - 1);
      var (t, a) := schedule[k - 1];
      if t == 0 { LoopThreadKeeps(s, a); } else if t <= n { OtherKeeps(s, t - 1, a); }
    }
  }

  // ---------------------------------------------------------------- the guarantees

  /** In every run the functors executed are a prefix of those queued: in order, none twice, none skipped. */
  lemma ExecutedInOrder(n: nat, schedule: Schedule)
    ensures var s := Run(n, schedule, |schedule|);
            s.executed <= s.queued && s.queued == s.executed + s.batch + s.pending
  {
    hide Run;
    RunKeeps(n, schedule, |schedule|);
    var s := Run(n, schedule, |schedule|);
    Prefix(s.executed, s.batch, s.pending, s.queued);
  }

  lemma Prefix(a: seq<Functor>, b: seq<Functor>, c: seq<Functor>, all: seq<Functor>)
    requires a + b + c == all
    ensures a <= all
  {
    assert all == a + (b + c);
  }

  /** When the loop goes back to poll, everything that was queued when it last took the list has been executed. */
  lemma PollMeansDone(n: nat, schedule: Schedule)
    ensures var s := Run(n, schedule, |schedule|);
            s.pc.Poll? ==>
              && s.swapped <= |s.queued|
              && s.executed == s.queued[..s.swapped] && s.pending == s.queued[s.swapped..]
  {
    RunKeeps(n, schedule, |schedule|);
    var s := Run(n, schedule, |schedule|);
    if s.pc.Poll? { assert s.executed + s.batch == s.executed; }
  }

  /**
   * No wakeup is lost: whenever the loop is in poll and something is pending, the eventfd is
   * readable or a thread is between its push and its wakeup, unless everything pending was
   * queued by the loop thread itself while it was not in loop.
   */
  lemma NoLostWakeup(n: nat, schedule: Schedule)
    ensures var s := Run(n, schedule, |schedule|);
            s.pc.Poll? && s.pending != [] ==>
              s.count > 0 || WakeupDue(s) || forall i :: 0 <= i < |s.pending| ==> s.pending[i].outside
  {
    RunKeeps(n, schedule, |schedule|);
  }

  /** That exception is real: what the loop thread queues before it calls loop does not wake poll. */
  lemma StrandedBeforeLoop(n: nat, id: nat)
    ensures var s := Run(n, [(0, Queue(id)), (0, Second), (0, Step), (0, Step)], 4);
            s.pc.Poll? && s.count == 0 && s.pending == [Functor(id, true)] && !WakeupDue(s)
  {
    var z: Schedule := [(0, Queue(id)), (0, Second), (0, Step), (0, Step)];
    var s0 := Init(n);
    assert Run(n, z, 0) == s0;
    assert [] + [Functor(id, true)] == [Functor(id, true)];
    var s1 := Push(s0, Functor(id, true)).(half := AfterPush);
    assert Run(n, z, 1) == s1;
    assert Run(n, z, 2) == s1.(half := Whole);
    assert Run(n, z, 3) == s1.(half := Whole, pc := Test);
    assert Run(n, z, 4) == s1.(half := Whole, pc := Poll);
  }

  /** Whoever queues a functor, it is queued last; another thread must then wake the loop. */
  lemma QueueTakesEffect(s: State, t: nat, id: nat)
    requires if t == 0 then s.half.Whole? && InUserCode(s.pc) else t <= |s.others| && s.others[t - 1].Whole?
    ensures var q := Turn(s, t, Queue(id)); var f := Functor(id, t == 0 && s.pc.Outside?);
            && q.queued == s.queued + [f] && q.pending == s.pending + [f] && q.executed == s.executed
            && (if t == 0 then q.half.AfterPush? else q.others[t - 1].AfterPush?)
  {
  }

  lemma TurnForgetsNothing(s: State, t: nat, a: Action)
    ensures s.queued <= Turn(s, t, a).queued && s.executed <= Turn(s, t, a).executed
  {
  }

  /** What has been queued or executed stays so. */
  lemma {:induction false} NothingForgotten(n: nat, schedule: Schedule, i: nat, k: nat)
    requires i <= k <= |schedule|
    ensures Run(n, schedule, i).queued <= Run(n, schedule, k).queued
    ensures Run(n, schedule, i).executed <= Run(n, schedule, k).executed
  {
    hide Turn;
    if i < k {
      NothingForgotten(n, schedule, i, k - 1);
      TurnForgetsNothing(Run(n, schedule, k - 1), schedule[k - 1].0, schedule[k - 1].1);
    }
  }

  // ---------------------------------------------------------------- quit

  /** Some thread assigns true to m_quit while the loop thread is in loop. */
  ghost predicate Quits(s: State, t: nat, a: Action) {
    a.Quit? && !s.pc.Outside? &&
    if t == 0 then s.half.Whole? && InUserCode(s.pc) else t <= |s.others| && s.others[t - 1].Whole?
  }

  lemma QuitTurn(s: State, t: nat, a: Action)
    requires Quits(s, t, a) || (s.quit && !s.pc.Outside?)
    ensures Turn(s, t, a).quit
  {
  }

  lemma {:induction false} QuitStays(n: nat, schedule: Schedule, i: nat, k: nat)
    requires i < k <= |schedule|
    requires Quits(Run(n, schedule, i), schedule[i].0, schedule[i].1)
    requires forall m :: i < m < k ==> !Run(n, schedule, m).pc.Outside?
    ensures Run(n, schedule, k).quit
  {
    hide Turn, Quits;
    if i + 1 < k { QuitStays(n, schedule, i, k - 1); }
    QuitTurn(Run(n, schedule, k - 1), schedule[k - 1].0, schedule[k - 1].1);
  }

  lemma NoPollTurn(s: State, t: nat, a: Action)
    requires s.quit && !s.pc.Outside? && !s.pc.Poll?
    ensures !Turn(s, t, a).pc.Poll?
  {
  }

  /** After a quit inside loop, the loop thread does not enter poll again before it has left loop. */
  lemma {:induction false} NoPollAfterQuit(n: nat, schedule: Schedule, i: nat, k: nat)
    requires i < k < |schedule|
    requires Quits(Run(n, schedule, i), schedule[i].0, schedule[i].1)
    requires forall m :: i < m <= k ==> !Run(n, schedule, m).pc.Outside?
    requires !Run(n, schedule, k).pc.Poll?
    ensures !Run(n, schedule, k + 1).pc.Poll?
  {
    hide Turn, Quits;
    QuitStays(n, schedule, i, k);
    NoPollTurn(Run(n, schedule, k), schedule[k].0, schedule[k].1);
  }

  /** How many steps the loop thread has to take before it leaves loop, if it is told to and left alone. */
  function ToGo(s: State): nat {
    var after := 2 * |s.pending| + 4;
    match s.pc
    case Outside => 0
    case Test => 1
    case Poll => after + 3
    case Handle(wake) => after + if wake then 2 else 1
    case Mark => after
    case Swap => after - 1
    case Next => 2 * |s.batch| + 2
    case Running => 2 * |s.batch| + 3
  }

  /** Once m_quit is set, every step of the loop thread brings the end of loop nearer. */
  lemma QuitEnds(s: State)
    requires s.quit && s.half.Whole? && !s.pc.Outside?
    ensures var q := OnLoopThread(s, Step); ToGo(q) < ToGo(s) && (q.quit || q.pc.Outside?) && q.half.Whole?
  {
  }

  /** Without a quit, loop goes on. */
  lemma LoopGoesOn(s: State)
    requires !s.quit && !s.pc.Outside?
    ensures !OnLoopThread(s, Step).pc.Outside?
  {
  }

  // ---------------------------------------------------------------- the eventfd

  /** A thread writes to the eventfd in this turn. */
  ghost predicate Wakes(s: State, t: nat, a: Action) {
    a.Second? &&
    if t == 0 then s.half.AfterQuit? || (s.half.AfterPush? && s.calling)
    else t <= |s.others| && s.others[t - 1].AfterPush?
  }

  /** A wakeup makes the eventfd readable. */
  lemma WakeupSignals(s: State, t: nat, a: Action)
    requires Wakes(s, t, a)
    ensures Turn(s, t, a).count > 0
  {
  }

  lemma ClearTurn(s: State, t: nat, a: Action)
    requires s.count == 0 && !Wakes(s, t, a)
    ensures Turn(s, t, a).count == 0
  {
  }

  lemma ReadTurn(s: State)
    requires s.half.Whole? && s.pc == Handle(true)
    ensures Turn(s, 0, Step).count == 0
  {
  }

  /**
   * The loop does not spin: once it has handled the eventfd, poll does not find it readable before
   * some thread wakes the loop again.
   */
  lemma {:induction false} ReadClears(n: nat, schedule: Schedule, i: nat, k: nat)
    requires i < k <= |schedule| && schedule[i] == (0, Step)
    requires Run(n, schedule, i).half.Whole? && Run(n, schedule, i).pc == Handle(true)
    requires forall m :: i < m < k ==> !Wakes(Run(n, schedule, m), schedule[m].0, schedule[m].1)
    ensures Run(n, schedule, k).count == 0
  {
    hide Turn, Wakes;
    if i + 1 < k {
      ReadClears(n, schedule, i, k - 1);
      ClearTurn(Run(n, schedule, k - 1), schedule[k - 1].0, schedule[k - 1].1);
    } else {
      ReadTurn(Run(n, schedule, i));
    }
  }

  /** How many turns from `i` to `k` write to the eventfd. */
  ghost function Writes(n: nat, schedule: Schedule, i: nat, k: nat): nat
    requires i <= k <= |schedule|
  {
    if i == k then 0
    else
      Writes(n, schedule, i, k - 1) +
      if Wakes(Run(n, schedule, k - 1), schedule[k - 1].0, schedule[k - 1].1) then 1 else 0
  }

  lemma CountTurn(s: State, t: nat, a: Action)
    requires s.pc != Handle(true) && !s.pc.Poll?
    ensures var q := Turn(s, t, a);
            q.pc != Handle(true) && q.count <= s.count + if Wakes(s, t, a) then 1 else 0
  {
  }

  lemma HandleTurn(s: State, t: nat, a: Action)
    requires s.pc == Handle(true)
    ensures Turn(s, t, a).pc == Handle(true) || Turn(s, t, a).count == 0
  {
  }

  /**
   * What made poll return is always read: from then until the loop is back in poll, what stands in
   * the eventfd, other than what poll found, has been written since.
   */
  lemma {:induction false} NothingUnread(n: nat, schedule: Schedule, i: nat, k: nat)
    requires i < k <= |schedule| && schedule[i] == (0, Step)
    requires Run(n, schedule, i).half.Whole? && Run(n, schedule, i).pc.Poll?
    requires forall m :: i < m < k ==> !Run(n, schedule, m).pc.Poll?
    ensures var s := Run(n, schedule, k); s.pc == Handle(true) || s.count <= Writes(n, schedule, i + 1, k)
  {
    hide Wakes;
    if i + 1 < k {
      hide Turn;
      NothingUnread(n, schedule, i, k - 1);
      var s := Run(n, schedule, k - 1);
      var (t, a) := schedule[k - 1];
      if s.pc == Handle(true) { HandleTurn(s, t, a); } else { CountTurn(s, t, a); }
    }
  }

  /** The eventfd is never read while it is empty, and never exceeds its largest value. */
  lemma {:induction false} ReadsSomething(n: nat, schedule: Schedule, k: nat)
    requires k <= |schedule|
    ensures var s := Run(n, schedule, k); (s.pc == Handle(true) ==> s.count > 0) && s.count <= MAX_COUNT
  {
    if k > 0 {
      hide Turn;
      ReadsSomething(n, schedule, k - 1);
      ReadableTurn(Run(n, schedule, k - 1), schedule[k - 1].0, schedule[k - 1].1);
    }
  }

  lemma ReadableTurn(s: State, t: nat, a: Action)
    requires (s.pc == Handle(true) ==> s.count > 0) && s.count <= MAX_COUNT
    ensures var q := Turn(s, t, a); (q.pc == Handle(true) ==> q.count > 0) && q.count <= MAX_COUNT
  {
  }
}
