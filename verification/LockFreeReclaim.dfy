/** The lock-free stack gives its nodes back: what a pop that no other pop overlaps has freed when it returns. */
module LockFreeReclaim {
  import opened Options
  import opened LockFreeStack
  import opened LockFreeSteps
  import opened LockFreeResults

  /** The state after `k` steps. */
  function StateAt(sched: Schedule, k: nat): State
    requires k <= |sched|
  {
    match Run(sched[..k]) case Ok(s) => s case Fault => Init
  }

  ghost function AuxAt(sched: Schedule, k: nat): Aux
    requires k <= |sched|
  {
    AuxRun(sched[..k])
  }

  lemma {:induction false} StepAt(sched: Schedule, k: nat)
    requires k < |sched|
    ensures Inv(StateAt(sched, k), AuxAt(sched, k)) && Inv(StateAt(sched, k + 1), AuxAt(sched, k + 1))
    ensures var s := StateAt(sched, k);
            && Exec(s, sched[k].0, sched[k].1) == Ok(StateAt(sched, k + 1))
            && AuxAt(sched, k + 1) == AuxStep(s, AuxAt(sched, k), sched[k].0, sched[k].1)
  {
    hide Exec, AuxStep, Inv;
    Reachable(sched[..k]);
    Reachable(sched[..k + 1]);
    assert sched[..k + 1][..k] == sched[..k];
    Step(StateAt(sched, k), AuxAt(sched, k), sched[k].0, sched[k].1);
  }

  /** Inside pop. */
  predicate Popping(pc: Pc) {
    !(pc.Idle? || pc.PushLoad? || pc.PushCas? || pc.PushDone?)
  }

  /** The steps from `i` to `j` are one call of pop by `t`, and no other thread is inside pop meanwhile. */
  ghost predicate SolePop(sched: Schedule, i: nat, j: nat, t: Tid) {
    && i < j <= |sched| && sched[i] == (t, CallPop) && sched[j - 1].0 == t
    && At(StateAt(sched, i), t) == Idle && At(StateAt(sched, j), t) == Idle
    && (forall k :: i < k < j ==> At(StateAt(sched, k), t) != Idle)
    && (forall k, u :: i <= k <= j && u != t ==> !Popping(At(StateAt(sched, k), u)))
  }

  /** The node that was allocated at `n` is not any more. */
  ghost predicate Freed(sched: Schedule, n: Addr, i: nat, j: nat) {
    exists k :: i < k <= j <= |sched| && n !in StateAt(sched, k).heap
  }

  /** In step `m`, thread `t` takes the node at the head off the stack. */
  ghost predicate Takes(sched: Schedule, m: nat, t: Tid) {
    m < |sched| && sched[m].0 == t && StateAt(sched, m).head != StateAt(sched, m + 1).head
  }

  /** Has removed its node from the stack and still has it. */
  predicate Holding(pc: Pc) {
    || pc.PopSwap? || pc.PopCheck? || pc.PopExchange? || pc.PopLeave? || pc.PopFree? || pc.PopFreeNode?
    || pc.PopDelete?
  }

  /** Has taken the pending nodes off their list. */
  predicate Seized(pc: Pc) {
    pc.PopLeave? || pc.PopFree? || pc.PopFreeNode? || pc.PopDelete? || (pc.PopDone? && pc.res.Some?)
  }

  /** Has not removed anything. */
  predicate Seeking(pc: Pc) {
    pc.PopLoad? || pc.PopTest? || pc.PopCas? || pc.PopEmpty? || (pc.PopDone? && pc.res.None?)
  }

  /** Where the nodes that were pending at step `i` are. */
  ghost predicate PendingTraced(sched: Schedule, i: nat, k: nat, t: Tid, pc: Pc)
    requires i <= k <= |sched|
  {
    forall n :: n in AuxAt(sched, i).pending ==>
      || (!Seized(pc) && n in AuxAt(sched, k).pending)
      || (Seized(pc) && HasList(pc) && n in ListOf(AuxAt(sched, k), t))
      || Freed(sched, n, i, k)
  }

  /** Where the node is that `t` took. */
  ghost predicate TakenTraced(sched: Schedule, i: nat, k: nat, t: Tid, pc: Pc)
    requires i <= k <= |sched|
  {
    forall m :: i <= m < k && Takes(sched, m, t) ==>
      && !Seeking(pc)
      && ((Holding(pc) && pc.oldHead == StateAt(sched, m).head) || Freed(sched, StateAt(sched, m).head, m, k))
  }

  /** A pop alone, after step `k`. */
  ghost predicate Alone(sched: Schedule, i: nat, k: nat, t: Tid)
    requires i <= k <= |sched|
  {
    var pc := At(StateAt(sched, k), t);
    && (Seeking(pc) || Holding(pc) || Seized(pc))
    && (Seized(pc) ==> AuxAt(sched, k).pending == [])
    && PendingTraced(sched, i, k, t, pc) && TakenTraced(sched, i, k, t, pc)
    && (!Seeking(pc) ==> exists m :: i <= m < k && Takes(sched, m, t))
  }

  lemma {:induction false} NobodyElse(s: State, t: Tid)
    requires forall u :: u != t ==> !Popping(At(s, u))
    ensures |InPopSet(s)| == if Counted(At(s, t)) then 1 else 0
  {
    forall u | u in InPopSet(s) ensures u == t && Counted(At(s, t)) { assert Counted(At(s, u)); }
    if Counted(At(s, t)) { assert InPopSet(s) == {t}; } else { assert InPopSet(s) == {}; }
  }

  /** What another thread does outside pop. */
  lemma {:induction false} PushesLeave(s: State, a: Aux, t: Tid, u: Tid, c: Choice)
    requires Exec(s, u, c).Ok? && u != t && !Popping(At(s, u)) && !Popping(At(Exec(s, u, c).s, u))
    ensures var s' := Exec(s, u, c).s; var a' := AuxStep(s, a, u, c);
            && At(s', t) == At(s, t) && a'.pending == a.pending && ListOf(a', t) == ListOf(a, t)
  {
  }

  /** What a step of a pop alone does to the stack and to the node it has taken. */
  ghost predicate TakesOrKeeps(s: State, s': State, pc: Pc, pc': Pc) {
    && (Seeking(pc') ==> Seeking(pc) && s'.head == s.head)
    && (Seeking(pc) && !Seeking(pc') ==> s'.head != s.head && Holding(pc') && pc'.oldHead == s.head)
    && (!Seeking(pc) ==> s'.head == s.head)
    && (Holding(pc) && Holding(pc') ==> pc'.oldHead == pc.oldHead)
    && (Holding(pc) && !Holding(pc') ==> pc.oldHead !in s'.heap)
  }

  /** What it does to the pending nodes. */
  ghost predicate SeizesOrFrees(s': State, a: Aux, a': Aux, t: Tid, pc: Pc, pc': Pc) {
    && (Seized(pc) ==> Seized(pc'))
    && (!Seized(pc') ==> a'.pending == a.pending)
    && (Seized(pc') && !Seized(pc) ==> a'.pending == [] && HasList(pc') && ListOf(a', t) == a.pending)
    && (Seized(pc) ==> a'.pending == a.pending)
    && (Seized(pc) && HasList(pc) ==>
          forall n :: n in ListOf(a, t) ==> (HasList(pc') && n in ListOf(a', t)) || n !in s'.heap)
  }

  lemma {:induction false} HeadMoves(s: State, a: Aux, t: Tid)
    requires SharedInv(s, a) && ThreadInv(s, a, t) && At(s, t).PopCas? && s.head == At(s, t).oldHead
    ensures s.head != At(s, t).nxt
  {
    assert a.stack[0] in a.stack;
    assert s.heap[a.stack[0]].next == Following(a.stack, 0, NULL);
  }

  lemma {:induction false} SeekingKeeps(s: State, a: Aux, t: Tid, c: Choice)
    requires Exec(s, t, c).Ok? && Seeking(At(s, t)) && !At(s, t).PopDone?
    requires At(s, t).PopCas? && s.head == At(s, t).oldHead ==> s.head != At(s, t).nxt
    ensures var s' := Exec(s, t, c).s; var a' := AuxStep(s, a, t, c); var pc, pc' := At(s, t), At(s', t);
            && (Seeking(pc') || pc'.PopSwap?)
            && TakesOrKeeps(s, s', pc, pc') && SeizesOrFrees(s', a, a', t, pc, pc')
  {
  }

  lemma {:induction false} SeekingStep(s: State, a: Aux, t: Tid, c: Choice)
    requires SharedInv(s, a) && ThreadInv(s, a, t) && Exec(s, t, c).Ok?
    requires Seeking(At(s, t)) && !At(s, t).PopDone?
    ensures var s' := Exec(s, t, c).s; var a' := AuxStep(s, a, t, c); var pc, pc' := At(s, t), At(s', t);
            && (Seeking(pc') || pc'.PopSwap?)
            && TakesOrKeeps(s, s', pc, pc') && SeizesOrFrees(s', a, a', t, pc, pc')
  {
    hide Exec, AuxStep, SharedInv, ThreadInv, TakesOrKeeps, SeizesOrFrees;
    if At(s, t).PopCas? && s.head == At(s, t).oldHead { HeadMoves(s, a, t); }
    SeekingKeeps(s, a, t, c);
  }

  lemma {:induction false} HoldingKeeps(s: State, a: Aux, t: Tid, c: Choice)
    requires Exec(s, t, c).Ok? && Holding(At(s, t)) && (Counted(At(s, t)) ==> s.inPop == 1)
    requires At(s, t).PopDelete? ==> At(s, t).res.Some?
    ensures var s' := Exec(s, t, c).s; var pc, pc' := At(s, t), At(s', t);
            (Holding(pc') || Seized(pc')) && TakesOrKeeps(s, s', pc, pc')
  {
  }

  lemma {:induction false} HoldingSeizes(s: State, a: Aux, t: Tid, c: Choice)
    requires ThreadInv(s, a, t) && Exec(s, t, c).Ok? && Holding(At(s, t)) && (Counted(At(s, t)) ==> s.inPop == 1)
    ensures var s' := Exec(s, t, c).s;
            SeizesOrFrees(s', a, AuxStep(s, a, t, c), t, At(s, t), At(s', t))
  {
    hide Mine, SafelyHeld, Unheld, Distinct;
    var ns := ListOf(a, t);
    if At(s, t).PopFreeNode? { assert ns == [At(s, t).cur] + ns[1..]; }
  }

  lemma {:induction false} HoldingStep(s: State, a: Aux, t: Tid, c: Choice)
    requires ThreadInv(s, a, t) && Exec(s, t, c).Ok?
    requires Holding(At(s, t)) && (Counted(At(s, t)) ==> s.inPop == 1)
    ensures var s' := Exec(s, t, c).s; var a' := AuxStep(s, a, t, c); var pc, pc' := At(s, t), At(s', t);
            && (Holding(pc') || Seized(pc'))
            && TakesOrKeeps(s, s', pc, pc') && SeizesOrFrees(s', a, a', t, pc, pc')
  {
    hide TakesOrKeeps, SeizesOrFrees, Exec, AuxStep, ThreadInv;
    HasResult(s, a, t);
    HoldingKeeps(s, a, t, c);
    HoldingSeizes(s, a, t, c);
  }

  lemma {:induction false} HasResult(s: State, a: Aux, t: Tid)
    requires ThreadInv(s, a, t)
    ensures At(s, t).PopDelete? ==> At(s, t).res.Some?
  {
  }

  lemma {:induction false} FreedStays(sched: Schedule, n: Addr, i: nat, k: nat)
    requires Freed(sched, n, i, k) && k < |sched|
    ensures Freed(sched, n, i, k + 1)
  {
  }

  lemma {:induction false} FreedNow(sched: Schedule, n: Addr, i: nat, k: nat)
    requires i <= k < |sched| && n !in StateAt(sched, k + 1).heap
    ensures Freed(sched, n, i, k + 1)
  {
  }

  lemma {:induction false} PendingNext(sched: Schedule, i: nat, k: nat, t: Tid)
    requires i <= k < |sched|
    requires PendingTraced(sched, i, k, t, At(StateAt(sched, k), t))
    requires SeizesOrFrees(StateAt(sched, k + 1), AuxAt(sched, k), AuxAt(sched, k + 1), t,
                           At(StateAt(sched, k), t), At(StateAt(sched, k + 1), t))
    ensures PendingTraced(sched, i, k + 1, t, At(StateAt(sched, k + 1), t))
  {
    hide Freed, StateAt, AuxAt;
    var pc, pc' := At(StateAt(sched, k), t), At(StateAt(sched, k + 1), t);
    forall n | n in AuxAt(sched, i).pending
      ensures || (!Seized(pc') && n in AuxAt(sched, k + 1).pending)
              || (Seized(pc') && HasList(pc') && n in ListOf(AuxAt(sched, k + 1), t))
              || Freed(sched, n, i, k + 1)
    {
      if Freed(sched, n, i, k) {
        FreedStays(sched, n, i, k);
      } else if n !in StateAt(sched, k + 1).heap {
        FreedNow(sched, n, i, k);
      }
    }
  }

  lemma {:induction false} TakenNext(sched: Schedule, i: nat, k: nat, t: Tid)
    requires i <= k < |sched|
    requires TakenTraced(sched, i, k, t, At(StateAt(sched, k), t))
    requires sched[k].0 == t
    requires var s, q := StateAt(sched, k), StateAt(sched, k + 1); TakesOrKeeps(s, q, At(s, t), At(q, t))
    ensures TakenTraced(sched, i, k + 1, t, At(StateAt(sched, k + 1), t))
  {
    hide Freed, StateAt;
    var pc, pc' := At(StateAt(sched, k), t), At(StateAt(sched, k + 1), t);
    forall m | i <= m < k + 1 && Takes(sched, m, t)
      ensures !Seeking(pc')
      ensures (Holding(pc') && pc'.oldHead == StateAt(sched, m).head) || Freed(sched, StateAt(sched, m).head, m, k + 1)
    {
      var n := StateAt(sched, m).head;
      if m < k && Freed(sched, n, m, k) {
        FreedStays(sched, n, m, k);
      } else if m < k && !Holding(pc') {
        FreedNow(sched, n, m, k);
      }
    }
  }

  lemma {:induction false} AloneMoves(sched: Schedule, i: nat, k: nat, t: Tid)
    requires i <= k < |sched| && sched[k].0 == t && Alone(sched, i, k, t)
    requires !At(StateAt(sched, k), t).PopDone? && (forall u :: u != t ==> !Popping(At(StateAt(sched, k), u)))
    ensures Alone(sched, i, k + 1, t)
  {
    hide StateAt, AuxAt, PendingTraced, TakenTraced, Exec, AuxStep, SharedInv;
    var s, a, c := StateAt(sched, k), AuxAt(sched, k), sched[k].1;
    StepAt(sched, k);
    assert ThreadInv(s, a, t);
    NobodyElse(s, t);
    if Seeking(At(s, t)) { SeekingStep(s, a, t, c); } else { HoldingStep(s, a, t, c); }
    PendingNext(sched, i, k, t);
    TakenNext(sched, i, k, t);
    if Seeking(At(s, t)) && !Seeking(At(StateAt(sched, k + 1), t)) { assert Takes(sched, k, t); }
  }

  lemma {:induction false} AloneWaits(sched: Schedule, i: nat, k: nat, t: Tid)
    requires i <= k < |sched| && sched[k].0 != t && Alone(sched, i, k, t)
    requires !Popping(At(StateAt(sched, k), sched[k].0)) && !Popping(At(StateAt(sched, k + 1), sched[k].0))
    ensures Alone(sched, i, k + 1, t)
  {
    hide StateAt, AuxAt, Exec, AuxStep, Freed, Takes;
    var s, a, c := StateAt(sched, k), AuxAt(sched, k), sched[k].1;
    StepAt(sched, k);
    PushesLeave(s, a, t, sched[k].0, c);
    forall n, m | Freed(sched, n, m, k) ensures Freed(sched, n, m, k + 1) { FreedStays(sched, n, m, k); }
    assert !Takes(sched, k, t) by { NotItsStep(sched, k, t); }
  }

  lemma {:induction false} NotItsStep(sched: Schedule, k: nat, t: Tid)
    requires k < |sched| && sched[k].0 != t
    ensures !Takes(sched, k, t)
  {
  }

  lemma {:induction false} AloneStarts(sched: Schedule, i: nat, j: nat, t: Tid)
    requires SolePop(sched, i, j, t)
    ensures Alone(sched, i, i + 1, t)
  {
    StepAt(sched, i);
  }

  lemma {:induction false} AloneAt(sched: Schedule, i: nat, j: nat, t: Tid, k: nat)
    requires SolePop(sched, i, j, t) && i < k < j
    ensures Alone(sched, i, k, t)
  {
    hide StateAt, Alone, Popping;
    if k == i + 1 {
      AloneStarts(sched, i, j, t);
    } else {
      AloneAt(sched, i, j, t, k - 1);
      if sched[k - 1].0 == t {
        NotDone(sched, k - 1, t);
        AloneMoves(sched, i, k - 1, t);
      } else {
        AloneWaits(sched, i, k - 1, t);
      }
    }
  }

  lemma {:induction false} DoneIsLast(s: State, t: Tid, c: Choice)
    requires At(s, t).PopDone?
    ensures Exec(s, t, c).Ok? && At(Exec(s, t, c).s, t) == Idle
  {
  }

  lemma {:induction false} NotDone(sched: Schedule, k: nat, t: Tid)
    requires k < |sched| && sched[k].0 == t && At(StateAt(sched, k + 1), t) != Idle
    ensures !At(StateAt(sched, k), t).PopDone?
  {
    hide StateAt, AuxAt, Exec, AuxStep, Inv;
    StepAt(sched, k);
    if At(StateAt(sched, k), t).PopDone? { DoneIsLast(StateAt(sched, k), t, sched[k].1); }
  }

  /** The call returns `v` in its last step. */
  ghost predicate Returns(sched: Schedule, j: nat, t: Tid, v: Value) {
    0 < j <= |sched| && StateAt(sched, j).returned == StateAt(sched, j - 1).returned + [OpPop(t, Some(v))]
  }

  lemma {:induction false} DoneReturns(s: State, a: Aux, t: Tid, c: Choice, v: Value)
    requires Exec(s, t, c).Ok? && Exec(s, t, c).s.returned == s.returned + [OpPop(t, Some(v))]
    ensures var s' := Exec(s, t, c).s;
            && At(s, t) == PopDone(Some(v)) && AuxStep(s, a, t, c) == a
            && s'.heap == s.heap && s'.head == s.head
  {
    MoverReturns(s, t, c);
    assert Returning(s, t) == [OpPop(t, Some(v))] by {
      assert (s.returned + Returning(s, t))[|s.returned|..] == Returning(s, t);
      assert (s.returned + [OpPop(t, Some(v))])[|s.returned|..] == [OpPop(t, Some(v))];
    }
  }

  lemma {:induction false} DoneLast(sched: Schedule, i: nat, j: nat, t: Tid, v: Value)
    requires SolePop(sched, i, j, t) && Returns(sched, j, t, v)
    ensures i < j - 1 && At(StateAt(sched, j - 1), t) == PopDone(Some(v))
    ensures AuxAt(sched, j) == AuxAt(sched, j - 1)
    ensures StateAt(sched, j).heap == StateAt(sched, j - 1).heap && StateAt(sched, j).head == StateAt(sched, j - 1).head
  {
    hide StateAt, AuxAt, Exec, AuxStep, Inv, Popping;
    StepAt(sched, j - 1);
    DoneReturns(StateAt(sched, j - 1), AuxAt(sched, j - 1), t, sched[j - 1].1, v);
  }

  /** What may still be allocated when nobody is inside pop: a node on a list, or one that is being pushed. */
  ghost predicate Placed(s: State, n: Addr) {
    || OnList(s.heap, s.head, n) || OnList(s.heap, s.toBeDeleted, n)
    || exists u :: Pushing(At(s, u)) && At(s, u).nd == n
  }

  lemma {:induction false} NobodyPops(s: State, a: Aux, n: Addr)
    requires SharedInv(s, a) && n in s.heap && forall u :: !Popping(At(s, u))
    ensures Placed(s, n)
  {
    assert OwnerInv(s, a, n);
    match a.owner[n]
    case OnStack => assert n in a.stack;
    case OnPending => assert n in a.pending;
    case Of(u) => assert !Popping(At(s, u));
  }

  lemma {:induction false} NothingPending(s: State, a: Aux)
    requires SharedInv(s, a) && a.pending == []
    ensures s.toBeDeleted == NULL && forall n :: !OnList(s.heap, s.toBeDeleted, n)
  {
  }

  lemma {:induction false} PendingIs(s: State, a: Aux, n: Addr)
    requires SharedInv(s, a) && OnList(s.heap, s.toBeDeleted, n)
    ensures n in a.pending
  {
    var ns :| IsChain(s.heap, s.toBeDeleted, ns, NULL) && n in ns;
    ChainUnique(s.heap, s.toBeDeleted, ns, a.pending);
  }

  /**
   * A pop that returns a value, and that no other pop overlaps, frees everything there is to
   * free: the node it took off the stack and all nodes that were waiting to be deleted.  When it
   * returns, what is allocated is on the stack or being pushed.
   */
  lemma {:induction false} SolePopFrees(sched: Schedule, i: nat, j: nat, t: Tid, v: Value)
    requires SolePop(sched, i, j, t) && Returns(sched, j, t, v)
    ensures var s, s' := StateAt(sched, i), StateAt(sched, j);
            && s'.toBeDeleted == NULL
            && (exists m :: i <= m < j && Takes(sched, m, t))
            && (forall m :: i <= m < j && Takes(sched, m, t) ==> Freed(sched, StateAt(sched, m).head, m, j))
            && (forall n :: OnList(s.heap, s.toBeDeleted, n) ==> Freed(sched, n, i, j))
            && (forall n :: n in s'.heap ==>
                  OnList(s'.heap, s'.head, n) || exists u :: Pushing(At(s', u)) && At(s', u).nd == n)
  {
    hide StateAt, AuxAt, OnList, SharedInv, Freed, Takes;
    DoneLast(sched, i, j, t, v);
    AloneAt(sched, i, j, t, j - 1);
    StepAt(sched, i);
    StepAt(sched, j - 1);
    var s, s' := StateAt(sched, i), StateAt(sched, j);
    NothingPending(s', AuxAt(sched, j));
    forall n | n in s'.heap
      ensures OnList(s'.heap, s'.head, n) || exists u :: Pushing(At(s', u)) && At(s', u).nd == n
    {
      NobodyPops(s', AuxAt(sched, j), n);
    }
    forall n | OnList(s.heap, s.toBeDeleted, n) ensures Freed(sched, n, i, j) {
      PendingIs(s, AuxAt(sched, i), n);
      FreedStays(sched, n, i, j - 1);
    }
    forall m | i <= m < j && Takes(sched, m, t) ensures Freed(sched, StateAt(sched, m).head, m, j) {
      LastKeepsHead(sched, j, t);
      FreedStays(sched, StateAt(sched, m).head, m, j - 1);
    }
  }

  lemma {:induction false} LastKeepsHead(sched: Schedule, j: nat, t: Tid)
    requires 0 < j <= |sched| && StateAt(sched, j).head == StateAt(sched, j - 1).head
    ensures !Takes(sched, j - 1, t)
  {
  }

  // ---------- One thread ----------

  /** Of a single thread, nothing is ever left waiting to be deleted. */
  ghost predicate SoleThread(s: State, a: Aux, t: Tid) {
    && a.pending == [] && (forall u :: u != t ==> At(s, u) == Idle)
    && (Popping(At(s, t)) ==> Seeking(At(s, t)) || Holding(At(s, t)) || At(s, t).PopDone?)
  }

  lemma {:induction false} OutsideStep(s: State, a: Aux, t: Tid, c: Choice)
    requires Exec(s, t, c).Ok? && (!Popping(At(s, t)) || At(s, t).PopDone?)
    ensures AuxStep(s, a, t, c).pending == a.pending
    ensures var pc := At(Exec(s, t, c).s, t); !Popping(pc) || Seeking(pc)
  {
  }

  lemma {:induction false} SoleStep(s: State, a: Aux, t: Tid, c: Choice)
    requires Inv(s, a) && SoleThread(s, a, t)
    ensures Exec(s, t, c).Ok? && SoleThread(Exec(s, t, c).s, AuxStep(s, a, t, c), t)
  {
    hide SharedInv, Exec, AuxStep;
    Step(s, a, t, c);
    assert ThreadInv(s, a, t);
    NobodyElse(s, t);
    if Holding(At(s, t)) {
      HoldingStep(s, a, t, c);
    } else if Seeking(At(s, t)) && !At(s, t).PopDone? {
      SeekingStep(s, a, t, c);
    } else {
      OutsideStep(s, a, t, c);
    }
  }

  lemma {:induction false} SoleAt(sched: Schedule, k: nat, t: Tid)
    requires k <= |sched| && forall m :: 0 <= m < k ==> sched[m].0 == t
    ensures Inv(StateAt(sched, k), AuxAt(sched, k)) && SoleThread(StateAt(sched, k), AuxAt(sched, k), t)
  {
    hide Inv, Exec, AuxStep;
    Reachable(sched[..k]);
    if k > 0 {
      SoleAt(sched, k - 1, t);
      StepAt(sched, k - 1);
      SoleStep(StateAt(sched, k - 1), AuxAt(sched, k - 1), t, sched[k - 1].1);
    } else {
      assert sched[..0] == [];
    }
  }

  lemma {:induction false} ListedIsAllocated(heap: map<Addr, Node>, from: Addr, n: Addr)
    requires OnList(heap, from, n)
    ensures n in heap && n != NULL
  {
    var ns :| IsChain(heap, from, ns, NULL) && n in ns;
  }

  /** In a run of one thread, whenever no call is going on, the allocated nodes are exactly those on the stack. */
  lemma {:induction false} OneThreadFrees(sched: Schedule, t: Tid, n: Addr)
    requires forall m :: 0 <= m < |sched| ==> sched[m].0 == t
    requires Run(sched).Ok? && At(Run(sched).s, t) == Idle
    ensures var s := Run(sched).s; n in s.heap <==> OnList(s.heap, s.head, n)
  {
    hide SharedInv, OnList, Exec, AuxStep;
    assert sched[..|sched|] == sched;
    SoleAt(sched, |sched|, t);
    var s, a := StateAt(sched, |sched|), AuxAt(sched, |sched|);
    NothingPending(s, a);
    if n in s.heap { NobodyPops(s, a, n); }
    if OnList(s.heap, s.head, n) { ListedIsAllocated(s.heap, s.head, n); }
  }

  // ---------- Values ----------

  /** A node that holds a value is on the stack, or belongs to a push or to a pop that is about to take the value. */
  ghost predicate Filled(s: State, a: Aux) {
    forall n :: n in s.heap && n in a.owner && s.heap[n].data.Some? ==>
      a.owner[n] == OnStack || (a.owner[n].Of? && Giving(At(s, a.owner[n].t)))
  }

  predicate Giving(pc: Pc) {
    Pushing(pc) || pc.PopSwap?
  }

  /** Taking, putting back and deleting nodes. */
  predicate Reclaims(pc: Pc) {
    pc.PopExchange? || pc.PopFreeNode? || pc.PopChain? || pc.PopDelete?
  }

  /** Steps that write no value and move no node but those. */
  predicate MovesNothing(pc: Pc) {
    !Reclaims(pc) && !pc.Idle? && !Giving(pc) && !pc.PopCas?
  }

  lemma {:induction false} FilledReclaims(s: State, a: Aux, t: Tid, c: Choice)
    requires SharedInv(s, a) && ThreadInv(s, a, t) && Filled(s, a) && Exec(s, t, c).Ok? && Reclaims(At(s, t))
    ensures Filled(Exec(s, t, c).s, AuxStep(s, a, t, c))
  {
  }

  lemma {:induction false} FilledMoves(s: State, a: Aux, t: Tid, c: Choice)
    requires Filled(s, a) && Exec(s, t, c).Ok? && MovesNothing(At(s, t))
    ensures Filled(Exec(s, t, c).s, AuxStep(s, a, t, c))
  {
  }

  lemma {:induction false} FilledGives(s: State, a: Aux, t: Tid, c: Choice)
    requires SharedInv(s, a) && ThreadInv(s, a, t) && Filled(s, a) && Exec(s, t, c).Ok?
    requires At(s, t).Idle? || Giving(At(s, t)) || At(s, t).PopCas?
    ensures Filled(Exec(s, t, c).s, AuxStep(s, a, t, c))
  {
    var s', a' := Exec(s, t, c).s, AuxStep(s, a, t, c);
    forall n | n in s'.heap && n in a'.owner && s'.heap[n].data.Some?
      ensures a'.owner[n] == OnStack || (a'.owner[n].Of? && Giving(At(s', a'.owner[n].t)))
    {
      assert OwnerInv(s, a, n);
    }
  }

  lemma {:induction false} FilledStep(s: State, a: Aux, t: Tid, c: Choice)
    requires SharedInv(s, a) && ThreadInv(s, a, t) && Filled(s, a) && Exec(s, t, c).Ok?
    ensures Filled(Exec(s, t, c).s, AuxStep(s, a, t, c))
  {
    hide SharedInv, ThreadInv, Filled, Exec, AuxStep;
    if Reclaims(At(s, t)) { FilledReclaims(s, a, t, c); }
    else if MovesNothing(At(s, t)) { FilledMoves(s, a, t, c); }
    else { FilledGives(s, a, t, c); }
  }

  lemma {:induction false} FilledAt(sched: Schedule, k: nat)
    requires k <= |sched|
    ensures Inv(StateAt(sched, k), AuxAt(sched, k)) && Filled(StateAt(sched, k), AuxAt(sched, k))
  {
    hide Inv, Exec, AuxStep, Filled;
    Reachable(sched[..k]);
    if k > 0 {
      FilledAt(sched, k - 1);
      StepAt(sched, k - 1);
      InvParts(StateAt(sched, k - 1), AuxAt(sched, k - 1), sched[k - 1].0);
      FilledStep(StateAt(sched, k - 1), AuxAt(sched, k - 1), sched[k - 1].0, sched[k - 1].1);
    } else {
      assert sched[..0] == [];
      FilledFirst();
    }
  }

  lemma InvParts(s: State, a: Aux, t: Tid)
    requires Inv(s, a)
    ensures SharedInv(s, a) && ThreadInv(s, a, t)
  {
  }

  lemma FilledFirst()
    ensures Filled(Init, AuxInit)
  {
  }

  /** A popped value is given up at once, although its node may have to wait: no node on to_be_deleted holds one. */
  lemma {:induction false} PendingIsEmpty(sched: Schedule, n: Addr)
    requires Run(sched).Ok? && OnList(Run(sched).s.heap, Run(sched).s.toBeDeleted, n)
    ensures n in Run(sched).s.heap && Run(sched).s.heap[n].data == None
  {
    hide OnList, Exec, AuxStep;
    assert sched[..|sched|] == sched;
    FilledAt(sched, |sched|);
    var s, a := StateAt(sched, |sched|), AuxAt(sched, |sched|);
    PendingIs(s, a, n);
  }
}
