/**
 * No call on the lock-free stack can be left hanging: a thread that runs alone from any moment on
 * finishes its call.
 */
module LockFreeProgress {
  import opened Options
  import opened LockFreeStack
  import opened LockFreeSteps
  import opened LockFreeResults

  /** How many nodes of a list there are from `n` on. */
  function From(ns: seq<Addr>, n: Addr): nat {
    if ns == [] then 0 else if ns[0] == n then |ns| else From(ns[1..], n)
  }

  /** How many steps thread `t` has to take, if it is alone, until its call returns. */
  function Rank(s: State, a: Aux, t: Tid): nat {
    var mine, all := |ListOf(a, t)|, 2 * |a.pending|;
    match At(s, t)
    case Idle => 0
    case PushLoad(_, _) => 3
    case PushCas(nd, _) => if nd in s.heap && s.heap[nd].next == s.head then 2 else 3
    case PushDone(_) => 1
    case PopLoad => all + 14
    case PopTest(oldHead) => if oldHead == NULL then 3 else if oldHead == s.head then all + 11 else all + 13
    case PopCas(oldHead, _) => if oldHead == s.head then all + 10 else all + 12
    case PopSwap(_) => all + 9
    case PopCheck(_, _) => all + 8
    case PopExchange(_, _) => all + 7
    case PopLeave(_, _, _) => 2 * mine + 6
    case PopFree(_, _, _) => 2 * mine + 3
    case PopFreeNode(_, _, _, _) => 2 * mine + 2
    case PopWalk(_, _, _, lst) => From(ListOf(a, t), lst) + 5
    case PopLink(_, _, _, _) => 4
    case PopChain(_, last, _, _) => if last in s.heap && s.heap[last].next == s.toBeDeleted then 3 else 4
    case PopDelete(_, _) => 2
    case PopExit(_) => 2
    case PopEmpty => 2
    case PopDone(_) => 1
  }

  lemma {:induction false} FromAt(ns: seq<Addr>, i: nat)
    requires i < |ns| && Distinct(ns)
    ensures From(ns, ns[i]) == |ns| - i
  {
    if i > 0 { FromAt(ns[1..], i - 1); }
  }

  lemma {:induction false} WalkLowers(s: State, a: Aux, t: Tid)
    requires ThreadInv(s, a, t) && At(s, t).PopWalk?
    ensures var ns, lst := ListOf(a, t), At(s, t).lst;
            && lst in s.heap && From(ns, lst) > 0
            && (s.heap[lst].next != NULL ==> From(ns, s.heap[lst].next) < From(ns, lst))
  {
    var ns, lst := ListOf(a, t), At(s, t).lst;
    var i :| 0 <= i < |ns| && ns[i] == lst;
    FromAt(ns, i);
    assert s.heap[ns[i]].next == Following(ns, i, NULL);
    if i + 1 < |ns| { FromAt(ns, i + 1); }
  }

  lemma {:induction false} FromAtMost(ns: seq<Addr>, n: Addr)
    ensures From(ns, n) <= |ns|
  {
    if ns != [] && ns[0] != n { FromAtMost(ns[1..], n); }
  }

  lemma {:induction false} ReachesLowers(s: State, a: Aux, t: Tid)
    requires Exec(s, t, Go(false)).Ok? && At(s, t) != Idle && !Reclaiming(At(s, t))
    ensures Rank(Exec(s, t, Go(false)).s, AuxStep(s, a, t, Go(false)), t) < Rank(s, a, t)
  {
    hide From;
  }

  lemma {:induction false} ReclaimLowers(s: State, a: Aux, t: Tid)
    requires Exec(s, t, Go(false)).Ok? && Reclaiming(At(s, t))
    requires At(s, t).PopFreeNode? ==> ListOf(a, t) != []
    requires At(s, t).PopLeave? ==> From(ListOf(a, t), At(s, t).nodes) <= |ListOf(a, t)|
    requires At(s, t).PopWalk? ==>
               var ns, lst := ListOf(a, t), At(s, t).lst;
               && lst in s.heap && From(ns, lst) > 0
               && (s.heap[lst].next != NULL ==> From(ns, s.heap[lst].next) < From(ns, lst))
    ensures Rank(Exec(s, t, Go(false)).s, AuxStep(s, a, t, Go(false)), t) < Rank(s, a, t)
  {
    hide From;
  }

  lemma {:induction false} StillSomeToFree(s: State, a: Aux, t: Tid)
    requires ThreadInv(s, a, t)
    ensures At(s, t).PopFreeNode? ==> ListOf(a, t) != []
  {
  }

  /** Each step that a thread takes without interference brings its return nearer. */
  lemma {:induction false} StepLowers(s: State, a: Aux, t: Tid)
    requires Inv(s, a) && At(s, t) != Idle
    ensures Exec(s, t, Go(false)).Ok?
    ensures Rank(Exec(s, t, Go(false)).s, AuxStep(s, a, t, Go(false)), t) < Rank(s, a, t)
  {
    hide SharedInv, ThreadInv, From, Exec, AuxStep, Rank;
    assert ThreadInv(s, a, t);
    Step(s, a, t, Go(false));
    if Reclaiming(At(s, t)) {
      if At(s, t).PopWalk? { WalkLowers(s, a, t); }
      if At(s, t).PopLeave? { FromAtMost(ListOf(a, t), At(s, t).nodes); }
      StillSomeToFree(s, a, t);
      ReclaimLowers(s, a, t);
    } else {
      ReachesLowers(s, a, t);
    }
  }

  /** `n` steps of thread `t` in a row. */
  function Alone(t: Tid, n: nat): Schedule {
    if n == 0 then [] else Alone(t, n - 1) + [(t, Go(false))]
  }

  /** Whatever has happened, and wherever a thread stands in its call, running alone takes it to the end. */
  lemma {:induction false} FinishesAlone(sched: Schedule, t: Tid) returns (n: nat)
    ensures Run(sched).Ok? && Run(sched + Alone(t, n)).Ok? && At(Run(sched + Alone(t, n)).s, t) == Idle
    ensures n <= Rank(Run(sched).s, AuxRun(sched), t)
    decreases match Run(sched) case Ok(s) => Rank(s, AuxRun(sched), t) case Fault => 0
  {
    hide Exec, AuxStep, Rank;
    Reachable(sched);
    var s, a := Run(sched).s, AuxRun(sched);
    n := 0;
    assert sched + [] == sched;
    if At(s, t) != Idle {
      StepLowers(s, a, t);
      var next := sched + [(t, Go(false))];
      assert next[..|sched|] == sched;
      var m := FinishesAlone(next, t);
      AloneFirst(t, m);
      assert next + Alone(t, m) == sched + ([(t, Go(false))] + Alone(t, m));
      n := m + 1;
    }
  }

  lemma {:induction false} AloneFirst(t: Tid, n: nat)
    ensures [(t, Go(false))] + Alone(t, n) == Alone(t, n + 1)
  {
    if n > 0 {
      AloneFirst(t, n - 1);
    }
  }
}
