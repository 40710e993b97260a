/** What holds of the lock-free stack after every schedule. */
module LockFreeResults {
  import opened Options
  import opened LockFreeStack
  import opened LockFreeSteps

  // ---------- What a step does to the stack ----------

  function ValueAt(heap: map<Addr, Node>, n: Addr): Value {
    if n in heap && heap[n].data.Some? then heap[n].data.value else 0
  }

  function Values(heap: map<Addr, Node>, ns: seq<Addr>): seq<Value> {
    seq(|ns|, i requires 0 <= i < |ns| => ValueAt(heap, ns[i]))
  }

  lemma ChainUnique(heap: map<Addr, Node>, from: Addr, ns: seq<Addr>, ms: seq<Addr>)
    requires IsChain(heap, from, ns, NULL) && IsChain(heap, from, ms, NULL)
    ensures ns == ms
    decreases |ns|
  {
    if ns != [] && ms != [] {
      assert heap[ns[0]].next == Following(ns, 0, NULL) && heap[ms[0]].next == Following(ms, 0, NULL);
      ChainTail(heap, from, ns);
      ChainTail(heap, from, ms);
      ChainUnique(heap, heap[from].next, ns[1..], ms[1..]);
      assert ns == [from] + ns[1..] && ms == [from] + ms[1..];
    }
  }

  lemma ChainTail(heap: map<Addr, Node>, from: Addr, ns: seq<Addr>)
    requires ns != [] && IsChain(heap, from, ns, NULL)
    ensures from in heap && IsChain(heap, heap[from].next, ns[1..], NULL)
  {
    assert heap[ns[0]].next == Following(ns, 0, NULL);
    forall i | 0 <= i < |ns[1..]| ensures heap[ns[1..][i]].next == Following(ns[1..], i, NULL) {
      assert heap[ns[i + 1]].next == Following(ns, i + 1, NULL);
    }
  }

  /** `vs` are the values from the head of the list down. */
  ghost predicate Contents(s: State, vs: seq<Value>) {
    exists ns :: IsChain(s.heap, s.head, ns, NULL) && Distinct(ns) && vs == Values(s.heap, ns)
  }

  lemma SameStack(s: State, a: Aux, t: Tid, c: Choice)
    requires SharedInv(s, a) && ThreadInv(s, a, t) && LinStep(s, t, c) == []
    ensures AuxStep(s, a, t, c).stack == a.stack
  {
  }

  lemma StackUnchanged(s: State, a: Aux, s': State, a': Aux, t: Tid)
    requires SharedInv(s, a) && SharedInv(s', a') && Respects(s, a, s', a', t)
    requires a'.stack == a.stack
    ensures Values(s'.heap, a'.stack) == Values(s.heap, a.stack)
  {
    forall i | 0 <= i < |a.stack| ensures ValueAt(s'.heap, a.stack[i]) == ValueAt(s.heap, a.stack[i]) {
      assert a.stack[i] in a.stack;
    }
  }

  lemma StackChanged(s: State, a: Aux, t: Tid, c: Choice)
    requires SharedInv(s, a) && ThreadInv(s, a, t) && LinStep(s, t, c) != []
    ensures Exec(s, t, c).Ok? && |LinStep(s, t, c)| == 1
    ensures Apply(Values(s.heap, a.stack), LinStep(s, t, c)[0]) ==
            Some(Values(Exec(s, t, c).s.heap, AuxStep(s, a, t, c).stack))
  {
    var pc := At(s, t);
    var vs := Values(s.heap, a.stack);
    match LinStep(s, t, c)[0]
    case OpPush(_, v) =>
      assert Exec(s, t, c) == Ok(Goto(s.(head := pc.nd), t, PushDone(v)));
      assert AuxStep(s, a, t, c).stack == [pc.nd] + a.stack;
      assert Values(s.heap, [pc.nd] + a.stack) == [v] + vs;
    case OpPop(_, None) =>
      assert a.stack == [];
    case OpPop(_, Some(v)) =>
      assert Exec(s, t, c) == Ok(Goto(s.(head := pc.nxt), t, PopSwap(pc.oldHead)));
      assert a.stack != [];
      assert Values(s.heap, a.stack[1..]) == vs[1..];
  }

  lemma Effect(s: State, a: Aux, t: Tid, c: Choice)
    requires Inv(s, a)
    ensures Exec(s, t, c).Ok?
    ensures var vs, vs' := Values(s.heap, a.stack), Values(Exec(s, t, c).s.heap, AuxStep(s, a, t, c).stack);
            if LinStep(s, t, c) == [] then vs' == vs
            else |LinStep(s, t, c)| == 1 && Apply(vs, LinStep(s, t, c)[0]) == Some(vs')
  {
    assert ThreadInv(s, a, t);
    Step(s, a, t, c);
    if LinStep(s, t, c) == [] {
      SameStack(s, a, t, c);
      StackUnchanged(s, a, Exec(s, t, c).s, AuxStep(s, a, t, c), t);
    } else {
      StackChanged(s, a, t, c);
    }
  }

  // ---------- Runs ----------

  ghost function AuxRun(sched: Schedule): Aux {
    if sched == [] then AuxInit
    else
      var last := |sched| - 1;
      match Run(sched[..last])
      case Fault => AuxInit
      case Ok(s) => AuxStep(s, AuxRun(sched[..last]), sched[last].0, sched[last].1)
  }

  lemma {:induction false} Reachable(sched: Schedule)
    ensures Run(sched).Ok? && Inv(Run(sched).s, AuxRun(sched))
  {
    if sched == [] {
      assert InPopSet(Init) == {};
    } else {
      var last := |sched| - 1;
      Reachable(sched[..last]);
      Step(Run(sched[..last]).s, AuxRun(sched[..last]), sched[last].0, sched[last].1);
    }
  }

  /**
   * Memory safety: whatever the schedule, and however addresses are reused, no step reads,
   * writes or deletes a node that is not allocated, so nothing is used after it is freed or
   * freed twice, and the unsigned counter never wraps below zero.
   */
  lemma MemorySafety(sched: Schedule)
    ensures Run(sched) != Fault
  {
    Reachable(sched);
  }

  /** The node that the next action of a thread at `pc` deletes. */
  function Deleting(pc: Pc): Addr {
    match pc
    case PopFreeNode(_, _, cur, _) => cur
    case PopDelete(oldHead, _) => oldHead
    case _ => NULL
  }

  /** A thread at `pc` has a local through which it may still reach node `n`. */
  predicate Refers(pc: Pc, n: Addr) {
    match pc
    case PushLoad(nd, _) => n == nd
    case PushCas(nd, _) => n == nd
    case PopTest(oldHead) => n == oldHead
    case PopCas(oldHead, _) => n == oldHead
    case PopSwap(oldHead) => n == oldHead
    case PopCheck(oldHead, _) => n == oldHead
    case PopExchange(oldHead, _) => n == oldHead
    case PopLeave(oldHead, _, nodes) => n == oldHead || n == nodes
    case PopFree(oldHead, _, cur) => n == oldHead || n == cur
    case PopFreeNode(oldHead, _, cur, nxt) => n == oldHead || n == cur || n == nxt
    case PopWalk(oldHead, _, first, lst) => n == oldHead || n == first || n == lst
    case PopLink(first, last, after, _) => n == first || n == last || n == after
    case PopChain(first, last, after, _) => n == first || n == last || n == after
    case PopDelete(oldHead, _) => n == oldHead
    case _ => false
  }

  ghost predicate OnList(heap: map<Addr, Node>, from: Addr, n: Addr) {
    exists ns :: IsChain(heap, from, ns, NULL) && n in ns
  }

  lemma RefersOwned(s: State, a: Aux, u: Tid, n: Addr)
    requires SharedInv(s, a) && ThreadInv(s, a, u)
    requires n != NULL && Refers(At(s, u), n)
    ensures Held(At(s, u)) == n || Mine(a, u, n)
  {
    var ns := ListOf(a, u);
    match At(s, u)
    case PopFreeNode(_, _, cur, nxt) =>
      assert s.heap[ns[0]].next == Following(ns, 0, NULL);
    case _ =>
  }

  lemma NotListed(s: State, a: Aux, n: Addr)
    requires SharedInv(s, a) && n in a.owner && a.owner[n].Of?
    ensures !OnList(s.heap, s.head, n) && !OnList(s.heap, s.toBeDeleted, n)
  {
    if OnList(s.heap, s.head, n) {
      var ns :| IsChain(s.heap, s.head, ns, NULL) && n in ns;
      ChainUnique(s.heap, s.head, ns, a.stack);
    }
    if OnList(s.heap, s.toBeDeleted, n) {
      var ns :| IsChain(s.heap, s.toBeDeleted, ns, NULL) && n in ns;
      ChainUnique(s.heap, s.toBeDeleted, ns, a.pending);
    }
  }

  /**
   * When a thread is about to delete a node, the node is allocated, it is neither on the
   * stack nor on the to_be_deleted list, and no other thread has a local that refers to it:
   * not as the `old` of a pop, not as a pending node, and not as a node to delete.
   */
  lemma SafeDeletion(sched: Schedule, t: Tid, n: Addr)
    requires Run(sched).Ok? && n != NULL && Deleting(At(Run(sched).s, t)) == n
    ensures var s := Run(sched).s;
            && n in s.heap
            && !OnList(s.heap, s.head, n) && !OnList(s.heap, s.toBeDeleted, n)
            && (forall u :: u != t ==> !Refers(At(s, u), n))
  {
    Reachable(sched);
    var s, a := Run(sched).s, AuxRun(sched);
    assert ThreadInv(s, a, t);
    assert At(s, t).PopFreeNode? ==> ListOf(a, t)[0] in ListOf(a, t);
    assert Mine(a, t, n) && Unheld(s, n);
    NotListed(s, a, n);
    forall u | u != t ensures !Refers(At(s, u), n) {
      assert ThreadInv(s, a, u) && !Holds(s, u, n);
      if Refers(At(s, u), n) { RefersOwned(s, a, u, n); }
    }
  }

  /**
   * No ABA: if the compare-exchange of a pop finds `old` at the head, then the successor it
   * read earlier is still the successor of `old`, whatever happened in between.
   */
  lemma NoAba(sched: Schedule, t: Tid)
    requires Run(sched).Ok? && At(Run(sched).s, t).PopCas?
    requires Run(sched).s.head == At(Run(sched).s, t).oldHead
    ensures var s := Run(sched).s; s.head in s.heap && s.heap[s.head].next == At(s, t).nxt
  {
    Reachable(sched);
    var s, a := Run(sched).s, AuxRun(sched);
    assert ThreadInv(s, a, t);
    assert s.head in a.stack;
  }

  lemma ContentsAre(s: State, a: Aux, vs: seq<Value>)
    requires SharedInv(s, a)
    ensures Contents(s, vs) <==> vs == Values(s.heap, a.stack)
  {
    if Contents(s, vs) {
      var ns :| IsChain(s.heap, s.head, ns, NULL) && Distinct(ns) && vs == Values(s.heap, ns);
      ChainUnique(s.heap, s.head, ns, a.stack);
    }
  }

  /**
   * Refinement: each step either leaves the list of values below `head` as it was, or
   * performs on it exactly the one sequential stack operation that takes effect there.
   */
  lemma RefinesStack(sched: Schedule, t: Tid, c: Choice, vs: seq<Value>)
    requires Run(sched).Ok? && Contents(Run(sched).s, vs)
    ensures var s := Run(sched).s;
            && Exec(s, t, c).Ok?
            && (LinStep(s, t, c) == [] ==> Contents(Exec(s, t, c).s, vs))
            && (LinStep(s, t, c) != [] ==>
                  && |LinStep(s, t, c)| == 1 && Apply(vs, LinStep(s, t, c)[0]).Some?
                  && Contents(Exec(s, t, c).s, Apply(vs, LinStep(s, t, c)[0]).value))
  {
    Reachable(sched);
    var s, a := Run(sched).s, AuxRun(sched);
    Effect(s, a, t, c);
    Step(s, a, t, c);
    var s', a' := Exec(s, t, c).s, AuxStep(s, a, t, c);
    ContentsAre(s, a, vs);
    ContentsAre(s', a', Values(s'.heap, a'.stack));
  }

  // ---------- Linearizability ----------

  lemma ReplayAppend(ops: seq<Op>, op: Op)
    ensures Replay(ops + [op]) == if Replay(ops).Some? then Apply(Replay(ops).value, op) else None
  {
    assert (ops + [op])[..|ops|] == ops;
  }

  lemma {:induction false} OpsOfAppend(ops: seq<Op>, more: seq<Op>, t: Tid)
    ensures OpsOf(ops + more, t) == OpsOf(ops, t) + OpsOf(more, t)
  {
    if more == [] {
      assert ops + more == ops;
    } else {
      var last := |more| - 1;
      assert (ops + more)[..|ops| + last] == ops + more[..last];
      OpsOfAppend(ops, more[..last], t);
    }
  }

  /** The operations that return in this step. */
  function Returning(s: State, t: Tid): seq<Op> {
    match At(s, t)
    case PushDone(v) => [OpPush(t, v)]
    case PopDone(res) => [OpPop(t, res)]
    case _ => []
  }

  lemma MoverReturns(s: State, t: Tid, c: Choice)
    requires Exec(s, t, c).Ok?
    ensures Exec(s, t, c).s.returned == s.returned + Returning(s, t)
  {
  }

  /** The operation may take effect in the next step. */
  predicate TakesEffect(pc: Pc) {
    pc.PushCas? || pc.PopLoad? || pc.PopCas?
  }

  lemma EffectPending(s: State, a: Aux, t: Tid, c: Choice)
    requires SharedInv(s, a) && ThreadInv(s, a, t) && Exec(s, t, c).Ok? && TakesEffect(At(s, t))
    ensures PendingOp(s, t) + LinStep(s, t, c) == Returning(s, t) + PendingOp(Exec(s, t, c).s, t)
  {
  }

  /** Inside try_reclaim, with the result in hand. */
  predicate Reclaiming(pc: Pc) {
    pc.PopCheck? || pc.PopExchange? || pc.PopLeave? || pc.PopFree? || pc.PopFreeNode? || pc.PopWalk?
    || pc.PopLink? || pc.PopChain? || pc.PopDelete? || pc.PopExit?
  }

  lemma ReclaimPending(s: State, t: Tid, c: Choice)
    requires Exec(s, t, c).Ok? && Reclaiming(At(s, t))
    ensures PendingOp(s, t) == [OpPop(t, At(s, t).res)] == PendingOp(Exec(s, t, c).s, t)
    ensures LinStep(s, t, c) == [] && Returning(s, t) == []
  {
  }

  lemma MoverPending(s: State, a: Aux, t: Tid, c: Choice)
    requires SharedInv(s, a) && ThreadInv(s, a, t) && Exec(s, t, c).Ok?
    ensures PendingOp(s, t) + LinStep(s, t, c) == Returning(s, t) + PendingOp(Exec(s, t, c).s, t)
  {
    if TakesEffect(At(s, t)) {
      EffectPending(s, a, t, c);
    } else if Reclaiming(At(s, t)) {
      ReclaimPending(s, t, c);
    } else {
      assert LinStep(s, t, c) == [];
    }
  }

  lemma OtherPending(s: State, a: Aux, s': State, a': Aux, t: Tid, u: Tid)
    requires SharedInv(s, a) && ThreadInv(s, a, u) && Respects(s, a, s', a', t) && u != t
    ensures PendingOp(s', u) == PendingOp(s, u)
  {
    assert At(s', u) == At(s, u);
  }

  lemma OpsOfOthers(ops: seq<Op>, t: Tid, u: Tid)
    requires |ops| <= 1 && (forall op :: op in ops ==> op.tid == t)
    ensures OpsOf(ops, u) == if u == t then ops else []
  {
    assert OpsOf([], u) == [];
  }

  ghost predicate Explained(s: State, lin: seq<Op>) {
    forall u :: OpsOf(lin, u) == OpsOf(s.returned, u) + PendingOp(s, u)
  }

  lemma Rearrange<T>(x: seq<T>, y: seq<T>, p: seq<T>, p': seq<T>, more: seq<T>, r: seq<T>)
    requires x == y + p && p + more == r + p'
    ensures x + more == (y + r) + p'
  {
    assert (y + p) + more == y + (p + more);
    assert y + (r + p') == (y + r) + p';
  }

  lemma {:induction false} ExplainedStep(lin: seq<Op>, more: seq<Op>, ret: seq<Op>, r: seq<Op>, p: seq<Op>,
                                         p': seq<Op>, t: Tid, u: Tid)
    requires OpsOf(lin, u) == OpsOf(ret, u) + p
    requires |more| <= 1 && (forall op :: op in more ==> op.tid == t)
    requires |r| <= 1 && (forall op :: op in r ==> op.tid == t)
    requires if u == t then p + more == r + p' else p' == p
    ensures OpsOf(lin + more, u) == OpsOf(ret + r, u) + p'
  {
    OpsOfAppend(lin, more, u);
    OpsOfAppend(ret, r, u);
    OpsOfOthers(more, t, u);
    OpsOfOthers(r, t, u);
    Rearrange(OpsOf(lin, u), OpsOf(ret, u), p, p', OpsOf(more, u), OpsOf(r, u));
  }

  /** What the sequential history says of a state and its history variables. */
  ghost predicate Linearized(s: State, a: Aux, lin: seq<Op>) {
    Replay(lin) == Some(Values(s.heap, a.stack)) && Explained(s, lin)
  }

  lemma ReplayStep(s: State, a: Aux, t: Tid, c: Choice, lin: seq<Op>)
    requires Inv(s, a) && Replay(lin) == Some(Values(s.heap, a.stack))
    ensures Exec(s, t, c).Ok?
    ensures Replay(lin + LinStep(s, t, c)) == Some(Values(Exec(s, t, c).s.heap, AuxStep(s, a, t, c).stack))
  {
    Effect(s, a, t, c);
    if LinStep(s, t, c) == [] {
      assert lin + LinStep(s, t, c) == lin;
    } else {
      assert lin + LinStep(s, t, c) == lin + [LinStep(s, t, c)[0]];
      ReplayAppend(lin, LinStep(s, t, c)[0]);
    }
  }

  lemma PendingStep(s: State, a: Aux, t: Tid, c: Choice, u: Tid)
    requires Inv(s, a)
    ensures Exec(s, t, c).Ok? && Exec(s, t, c).s.returned == s.returned + Returning(s, t)
    ensures var p, p' := PendingOp(s, u), PendingOp(Exec(s, t, c).s, u);
            if u == t then p + LinStep(s, t, c) == Returning(s, t) + p' else p' == p
  {
    Step(s, a, t, c);
    assert ThreadInv(s, a, t) && ThreadInv(s, a, u);
    MoverReturns(s, t, c);
    if u == t {
      MoverPending(s, a, t, c);
    } else {
      OtherPending(s, a, Exec(s, t, c).s, AuxStep(s, a, t, c), t, u);
    }
  }

  lemma LinStepSmall(s: State, t: Tid, c: Choice)
    ensures |LinStep(s, t, c)| <= 1 && (forall op :: op in LinStep(s, t, c) ==> op.tid == t)
    ensures |Returning(s, t)| <= 1 && (forall op :: op in Returning(s, t) ==> op.tid == t)
  {
  }

  lemma LinearizedStep(s: State, a: Aux, t: Tid, c: Choice, lin: seq<Op>)
    requires Inv(s, a) && Linearized(s, a, lin)
    ensures Exec(s, t, c).Ok?
    ensures Linearized(Exec(s, t, c).s, AuxStep(s, a, t, c), lin + LinStep(s, t, c))
  {
    ReplayStep(s, a, t, c, lin);
    LinStepSmall(s, t, c);
    var s' := Exec(s, t, c).s;
    forall u ensures OpsOf(lin + LinStep(s, t, c), u) == OpsOf(s'.returned, u) + PendingOp(s', u) {
      PendingStep(s, a, t, c, u);
      ExplainedStep(lin, LinStep(s, t, c), s.returned, Returning(s, t), PendingOp(s, u), PendingOp(s', u), t, u);
    }
  }

  lemma {:induction false} RunLinearized(sched: Schedule)
    ensures Run(sched).Ok? && Linearized(Run(sched).s, AuxRun(sched), Linearization(sched))
  {
    if sched == [] {
      assert Values(Init.heap, []) == [];
    } else {
      var last := |sched| - 1;
      RunLinearized(sched[..last]);
      Reachable(sched[..last]);
      LinearizedStep(Run(sched[..last]).s, AuxRun(sched[..last]), sched[last].0, sched[last].1,
                     Linearization(sched[..last]));
    }
  }

  /**
   * Linearizability: the operations of any run, in the order in which they take effect, are a
   * correct history of a sequential LIFO stack; the sequential stack holds what the list holds;
   * and each thread has seen exactly the results of that history, in its own order, except for at
   * most one operation that has taken effect inside a call that has not returned yet.
   */
  lemma Linearizable(sched: Schedule)
    ensures Run(sched).Ok? && Replay(Linearization(sched)).Some?
    ensures Contents(Run(sched).s, Replay(Linearization(sched)).value)
    ensures Explained(Run(sched).s, Linearization(sched))
  {
    RunLinearized(sched);
    Reachable(sched);
    ContentsAre(Run(sched).s, AuxRun(sched), Replay(Linearization(sched)).value);
  }

  /** The order never changes afterwards: an operation that has returned stays before every later one. */
  lemma {:induction false} OrderIsStable(sched: Schedule, k: nat)
    requires k <= |sched|
    ensures Linearization(sched[..k]) <= Linearization(sched)
  {
    if k == |sched| {
      assert sched[..k] == sched;
    } else {
      var last := |sched| - 1;
      OrderIsStable(sched[..last], k);
      assert sched[..last][..k] == sched[..k];
    }
  }

  function Pushed(ops: seq<Op>): multiset<Value> {
    if ops == [] then multiset{}
    else
      var last := |ops| - 1;
      Pushed(ops[..last]) + PushedBy(ops[last])
  }

  function Popped(ops: seq<Op>): multiset<Value> {
    if ops == [] then multiset{}
    else
      var last := |ops| - 1;
      Popped(ops[..last]) + PoppedBy(ops[last])
  }

  function PushedBy(op: Op): multiset<Value> {
    if op.OpPush? then multiset{op.v} else multiset{}
  }

  function PoppedBy(op: Op): multiset<Value> {
    if op.OpPop? && op.res.Some? then multiset{op.res.value} else multiset{}
  }

  lemma ApplyConserves(vs: seq<Value>, op: Op)
    requires Apply(vs, op).Some?
    ensures multiset(vs) + PushedBy(op) == PoppedBy(op) + multiset(Apply(vs, op).value)
  {
    if op.OpPop? && op.res.Some? { assert vs == [vs[0]] + vs[1..]; }
  }

  lemma {:induction false} ReplayConserves(ops: seq<Op>)
    requires Replay(ops).Some?
    ensures Pushed(ops) == Popped(ops) + multiset(Replay(ops).value)
  {
    hide Apply, PushedBy, PoppedBy;
    if ops != [] {
      var last := |ops| - 1;
      ReplayConserves(ops[..last]);
      var vs := Replay(ops[..last]).value;
      ApplyConserves(vs, ops[last]);
      Sums(Pushed(ops[..last]), Popped(ops[..last]), multiset(vs), PushedBy(ops[last]), PoppedBy(ops[last]),
           multiset(Replay(ops).value));
    }
  }

  lemma Sums(a: multiset<Value>, b: multiset<Value>, m: multiset<Value>, x: multiset<Value>,
             y: multiset<Value>, n: multiset<Value>)
    requires a == b + m && m + x == y + n
    ensures a + x == b + y + n
  {
    assert a + x == b + (m + x);
  }

  /** Conservation: every value pushed is on the stack or has been taken by exactly one pop. */
  lemma PopAtMostOnce(sched: Schedule, vs: seq<Value>)
    requires Run(sched).Ok? && Contents(Run(sched).s, vs)
    ensures Pushed(Linearization(sched)) == Popped(Linearization(sched)) + multiset(vs)
  {
    Linearizable(sched);
    Reachable(sched);
    ReplayConserves(Linearization(sched));
    ContentsAre(Run(sched).s, AuxRun(sched), vs);
    ContentsAre(Run(sched).s, AuxRun(sched), Replay(Linearization(sched)).value);
  }

  /**
   * No leak: once all calls have returned, every node still allocated is on the stack or on
   * the to_be_deleted list, and the counter is back at zero.
   */
  lemma NoLeak(sched: Schedule, n: Addr)
    requires Run(sched).Ok? && (forall t :: At(Run(sched).s, t) == Idle)
    ensures var s := Run(sched).s;
            && (n in s.heap <==> n != NULL && (OnList(s.heap, s.head, n) || OnList(s.heap, s.toBeDeleted, n)))
            && s.inPop == 0
  {
    Reachable(sched);
    var s, a := Run(sched).s, AuxRun(sched);
    forall t ensures t !in InPopSet(s) {
      assert At(s, t) == Idle;
    }
    assert InPopSet(s) == {};
    assert OwnerInv(s, a, n);
  }
}
