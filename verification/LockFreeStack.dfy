/**
 * The lock-free stack with deferred reclamation of
 * cpp_concurrency_2nd/lock_free_stack.cpp, as a system of atomic steps.
 *
 * `push` is that of lock_free_stack_2, `pop` that of lock_free_stack_3, and the
 * reclamation that of lock_free_stack_4.  Any number of threads run; each step of a
 * thread is one atomic action on shared memory (sequentially consistent).  Freed
 * addresses may be handed out again by `new`.  A step that reads, writes or deletes a
 * node that is not allocated is a `Fault`.
 */
module LockFreeStack {
  import opened Options

  type Addr = nat
  type Tid = nat
  type Value = int

  const NULL: Addr := 0

  datatype Node = Node(data: Option<Value>, next: Addr)

  /** A completed call: the thread, and the value pushed or the result popped. */
  datatype Op = OpPush(tid: Tid, v: Value) | OpPop(tid: Tid, res: Option<Value>)

  /** Where a thread stands: the next atomic action it will perform, and its locals. */
  datatype Pc =
    | Idle
    | PushLoad(nd: Addr, v: Value)                  // nd->next = head.load()
    | PushCas(nd: Addr, v: Value)                   // head.compare_exchange_weak(nd->next, nd)
    | PushDone(v: Value)                            // return
    | PopLoad                                       // oldHead = head.load()
    | PopTest(oldHead: Addr)                            // oldHead && ... read oldHead->next
    | PopCas(oldHead: Addr, nxt: Addr)                  // head.compare_exchange_weak(oldHead, nxt)
    | PopSwap(oldHead: Addr)                            // res.swap(oldHead->data)
    | PopCheck(oldHead: Addr, res: Option<Value>)       // threads_in_pop == 1
    | PopExchange(oldHead: Addr, res: Option<Value>)    // to_be_deleted.exchange(nullptr)
    | PopLeave(oldHead: Addr, res: Option<Value>, nodes: Addr)             // !--threads_in_pop
    | PopFree(oldHead: Addr, res: Option<Value>, cur: Addr)                // delete_nodes: nxt = nodes->next
    | PopFreeNode(oldHead: Addr, res: Option<Value>, cur: Addr, nxt: Addr) // delete_nodes: delete nodes
    | PopWalk(oldHead: Addr, res: Option<Value>, first: Addr, lst: Addr)   // chain_pending_nodes(nodes)
    | PopLink(first: Addr, last: Addr, after: Addr, res: Option<Value>)  // last->next = to_be_deleted
    | PopChain(first: Addr, last: Addr, after: Addr, res: Option<Value>) // to_be_deleted.compare_exchange_weak
    | PopDelete(oldHead: Addr, res: Option<Value>)      // delete old_head
    | PopExit(res: Option<Value>)                   // --threads_in_pop after chaining
    | PopEmpty                                      // empty pop: only --threads_in_pop
    | PopDone(res: Option<Value>)                   // return res

  datatype State = State(
    heap: map<Addr, Node>,
    head: Addr,
    toBeDeleted: Addr,
    inPop: nat,
    threads: map<Tid, Pc>,
    returned: seq<Op>)

  datatype Outcome = Ok(s: State) | Fault

  /** What the scheduler (and `new`, and a weak CAS) may choose for a step. */
  datatype Choice = CallPush(v: Value, a: Addr) | CallPop | Go(spurious: bool)

  const Init := State(map[], NULL, NULL, 0, map[], [])

  function At(s: State, t: Tid): Pc {
    if t in s.threads then s.threads[t] else Idle
  }

  function Goto(s: State, t: Tid, pc: Pc): State {
    s.(threads := s.threads[t := pc])
  }

  function SetNext(heap: map<Addr, Node>, n: Addr, next: Addr): map<Addr, Node>
    requires n in heap
  {
    heap[n := heap[n].(next := next)]
  }

  /** One atomic action of thread `t`. */
  function Exec(s: State, t: Tid, c: Choice): Outcome {
    var spurious := c.Go? && c.spurious;
    match At(s, t)
    case Idle =>
      (match c
       case CallPush(v, a) =>
         if a == NULL || a in s.heap then Ok(s)  // `new` never returns such an address
         else Ok(Goto(s.(heap := s.heap[a := Node(Some(v), NULL)]), t, PushLoad(a, v)))
       case CallPop => Ok(Goto(s.(inPop := s.inPop + 1), t, PopLoad))
       case Go(_) => Ok(s))
    case PushLoad(nd, v) =>
      if nd !in s.heap then Fault
      else Ok(Goto(s.(heap := SetNext(s.heap, nd, s.head)), t, PushCas(nd, v)))
    case PushCas(nd, v) =>
      if nd !in s.heap then Fault
      else if s.head == s.heap[nd].next && !spurious then Ok(Goto(s.(head := nd), t, PushDone(v)))
      else Ok(s.(heap := SetNext(s.heap, nd, s.head)))
    case PushDone(v) =>
      Ok(Goto(s.(returned := s.returned + [OpPush(t, v)]), t, Idle))
    case PopLoad =>
      Ok(Goto(s, t, PopTest(s.head)))
    case PopTest(oldHead) =>
      if oldHead == NULL then Ok(Goto(s, t, PopEmpty))
      else if oldHead !in s.heap then Fault
      else Ok(Goto(s, t, PopCas(oldHead, s.heap[oldHead].next)))
    case PopCas(oldHead, nxt) =>
      if s.head == oldHead && !spurious then Ok(Goto(s.(head := nxt), t, PopSwap(oldHead)))
      else Ok(Goto(s, t, PopTest(s.head)))
    case PopSwap(oldHead) =>
      if oldHead !in s.heap then Fault
      else
        var emptied := s.heap[oldHead := s.heap[oldHead].(data := None)];
        Ok(Goto(s.(heap := emptied), t, PopCheck(oldHead, s.heap[oldHead].data)))
    case PopCheck(oldHead, res) =>
      if s.inPop == 1 then Ok(Goto(s, t, PopExchange(oldHead, res)))
      else Ok(Goto(s, t, PopLink(oldHead, oldHead, NULL, res)))
    case PopExchange(oldHead, res) =>
      Ok(Goto(s.(toBeDeleted := NULL), t, PopLeave(oldHead, res, s.toBeDeleted)))
    case PopLeave(oldHead, res, nodes) =>
      if s.inPop == 0 then Fault
      else
        var s' := s.(inPop := s.inPop - 1);
        if s'.inPop == 0 then Ok(Goto(s', t, PopFree(oldHead, res, nodes)))
        else if nodes != NULL then Ok(Goto(s', t, PopWalk(oldHead, res, nodes, nodes)))
        else Ok(Goto(s', t, PopDelete(oldHead, res)))
    case PopFree(oldHead, res, cur) =>
      if cur == NULL then Ok(Goto(s, t, PopDelete(oldHead, res)))
      else if cur !in s.heap then Fault
      else Ok(Goto(s, t, PopFreeNode(oldHead, res, cur, s.heap[cur].next)))
    case PopFreeNode(oldHead, res, cur, nxt) =>
      if cur !in s.heap then Fault
      else Ok(Goto(s.(heap := s.heap - {cur}), t, PopFree(oldHead, res, nxt)))
    case PopWalk(oldHead, res, first, lst) =>
      if lst !in s.heap then Fault
      else if s.heap[lst].next == NULL then Ok(Goto(s, t, PopLink(first, lst, oldHead, res)))
      else Ok(Goto(s, t, PopWalk(oldHead, res, first, s.heap[lst].next)))
    case PopLink(first, last, after, res) =>
      if last !in s.heap then Fault
      else Ok(Goto(s.(heap := SetNext(s.heap, last, s.toBeDeleted)), t, PopChain(first, last, after, res)))
    case PopChain(first, last, after, res) =>
      if last !in s.heap then Fault
      else if s.toBeDeleted == s.heap[last].next && !spurious then
        Ok(Goto(s.(toBeDeleted := first), t, if after != NULL then PopDelete(after, res) else PopExit(res)))
      else Ok(Goto(s.(heap := SetNext(s.heap, last, s.toBeDeleted)), t, PopChain(first, last, after, res)))
    case PopDelete(oldHead, res) =>
      if oldHead !in s.heap then Fault
      else Ok(Goto(s.(heap := s.heap - {oldHead}), t, PopDone(res)))
    case PopExit(res) =>
      if s.inPop == 0 then Fault else Ok(Goto(s.(inPop := s.inPop - 1), t, PopDone(res)))
    case PopEmpty =>
      if s.inPop == 0 then Fault else Ok(Goto(s.(inPop := s.inPop - 1), t, PopDone(None)))
    case PopDone(res) =>
      Ok(Goto(s.(returned := s.returned + [OpPop(t, res)]), t, Idle))
  }

  /** A schedule: which thread moves, and what is chosen for it. */
  type Schedule = seq<(Tid, Choice)>

  function Run(sched: Schedule): Outcome {
    if sched == [] then Ok(Init)
    else
      var last := |sched| - 1;
      match Run(sched[..last])
      case Fault => Fault
      case Ok(s) => Exec(s, sched[last].0, sched[last].1)
  }

  // ---------- The sequential stack and the linearization order ----------

  /** One operation of the sequential stack (top first); None if `op` has the wrong result. */
  function Apply(vs: seq<Value>, op: Op): Option<seq<Value>> {
    match op
    case OpPush(_, v) => Some([v] + vs)
    case OpPop(_, None) => if vs == [] then Some(vs) else None
    case OpPop(_, Some(v)) => if vs != [] && vs[0] == v then Some(vs[1..]) else None
  }

  /** The contents of the sequential stack after `ops`, if every result is the right one. */
  function Replay(ops: seq<Op>): Option<seq<Value>> {
    if ops == [] then Some([])
    else
      var last := |ops| - 1;
      match Replay(ops[..last])
      case None => None
      case Some(vs) => Apply(vs, ops[last])
  }

  /** The operations that take effect in this step. */
  function LinStep(s: State, t: Tid, c: Choice): seq<Op> {
    var spurious := c.Go? && c.spurious;
    match At(s, t)
    case PushCas(nd, v) =>
      if nd in s.heap && s.head == s.heap[nd].next && !spurious then [OpPush(t, v)] else []
    case PopLoad => if s.head == NULL then [OpPop(t, None)] else []
    case PopCas(oldHead, nxt) =>
      if s.head == oldHead && !spurious then (if oldHead in s.heap then [OpPop(t, s.heap[oldHead].data)] else [])
      else if s.head == NULL then [OpPop(t, None)]
      else []
    case _ => []
  }

  /** The order in which the operations of a schedule take effect. */
  function Linearization(sched: Schedule): seq<Op> {
    if sched == [] then []
    else
      var last := |sched| - 1;
      Linearization(sched[..last]) +
      match Run(sched[..last])
      case Fault => []
      case Ok(s) => LinStep(s, sched[last].0, sched[last].1)
  }

  /** The operations of thread `t`, in order. */
  function OpsOf(ops: seq<Op>, t: Tid): seq<Op> {
    if ops == [] then []
    else
      var last := |ops| - 1;
      OpsOf(ops[..last], t) + if ops[last].tid == t then [ops[last]] else []
  }

  /** The operation of `t` that has taken effect but has not returned yet, if any. */
  function PendingOp(s: State, t: Tid): seq<Op> {
    match At(s, t)
    case PushDone(v) => [OpPush(t, v)]
    case PopTest(oldHead) => if oldHead == NULL then [OpPop(t, None)] else []
    case PopSwap(oldHead) => if oldHead in s.heap then [OpPop(t, s.heap[oldHead].data)] else []
    case PopCheck(_, res) => [OpPop(t, res)]
    case PopExchange(_, res) => [OpPop(t, res)]
    case PopLeave(_, res, _) => [OpPop(t, res)]
    case PopFree(_, res, _) => [OpPop(t, res)]
    case PopFreeNode(_, res, _, _) => [OpPop(t, res)]
    case PopWalk(_, res, _, _) => [OpPop(t, res)]
    case PopLink(_, _, _, res) => [OpPop(t, res)]
    case PopChain(_, _, _, res) => [OpPop(t, res)]
    case PopDelete(_, res) => [OpPop(t, res)]
    case PopExit(res) => [OpPop(t, res)]
    case PopEmpty => [OpPop(t, None)]
    case PopDone(res) => [OpPop(t, res)]
    case _ => []
  }

  // ---------- Auxiliary state ----------

  /** Who may free or relink an allocated node. */
  datatype Role = OnStack | OnPending | Of(t: Tid)

  /** History variables: the owner of each node, the two shared lists, and each thread's private list. */
  datatype Aux = Aux(
    owner: map<Addr, Role>,
    stack: seq<Addr>,
    pending: seq<Addr>,
    lists: map<Tid, seq<Addr>>)

  const AuxInit := Aux(map[], [], [], map[])

  function ListOf(a: Aux, t: Tid): seq<Addr> {
    if t in a.lists then a.lists[t] else []
  }

  function Give(owner: map<Addr, Role>, ns: seq<Addr>, r: Role): map<Addr, Role> {
    map n | n in owner :: if n in ns then r else owner[n]
  }

  function AuxStep(s: State, a: Aux, t: Tid, c: Choice): Aux {
    var spurious := c.Go? && c.spurious;
    match At(s, t)
    case Idle =>
      if c.CallPush? && c.a != NULL && c.a !in s.heap then a.(owner := a.owner[c.a := Of(t)]) else a
    case PushCas(nd, v) =>
      if nd in s.heap && s.head == s.heap[nd].next && !spurious
      then a.(owner := Give(a.owner, [nd], OnStack), stack := [nd] + a.stack) else a
    case PopCas(oldHead, nxt) =>
      if s.head == oldHead && !spurious && a.stack != []
      then a.(owner := a.owner[oldHead := Of(t)], stack := a.stack[1..]) else a
    case PopCheck(oldHead, res) =>
      if s.inPop == 1 then a else a.(lists := a.lists[t := [oldHead]])
    case PopExchange(oldHead, res) =>
      a.(owner := Give(a.owner, a.pending, Of(t)), pending := [], lists := a.lists[t := a.pending])
    case PopFreeNode(oldHead, res, cur, nxt) =>
      if ListOf(a, t) == [] then a
      else a.(owner := a.owner - {cur}, lists := a.lists[t := ListOf(a, t)[1..]])
    case PopChain(first, last, after, res) =>
      if last in s.heap && s.toBeDeleted == s.heap[last].next && !spurious
      then a.(owner := Give(a.owner, ListOf(a, t), OnPending), pending := ListOf(a, t) + a.pending,
              lists := a.lists[t := []])
      else a
    case PopDelete(oldHead, res) => a.(owner := a.owner - {oldHead})
    case _ => a
  }

  // ---------- The invariant ----------

  function Following(ns: seq<Addr>, i: nat, end: Addr): Addr {
    if i + 1 < |ns| then ns[i + 1] else end
  }

  /** `ns` are the nodes met by following `next` from `from` until `end`. */
  ghost predicate IsChain(heap: map<Addr, Node>, from: Addr, ns: seq<Addr>, end: Addr) {
    && from == (if ns == [] then end else ns[0])
    && (forall i :: 0 <= i < |ns| ==> ns[i] != NULL && ns[i] in heap)
    && (forall i {:trigger Following(ns, i, end)} :: 0 <= i < |ns| ==> heap[ns[i]].next == Following(ns, i, end))
  }

  ghost predicate Distinct(ns: seq<Addr>) {
    forall i, j :: 0 <= i < j < |ns| ==> ns[i] != ns[j]
  }

  /** Between ++threads_in_pop and --threads_in_pop. */
  predicate Counted(pc: Pc) {
    || pc.PopLoad? || pc.PopTest? || pc.PopCas? || pc.PopSwap? || pc.PopCheck? || pc.PopExchange? || pc.PopLeave?
    || pc.PopExit? || pc.PopEmpty?
    || ((pc.PopLink? || pc.PopChain?) && pc.after == NULL)
  }

  /** The node this thread holds as `old` without having removed it from the stack. */
  function Held(pc: Pc): Addr {
    if pc.PopTest? || pc.PopCas? then pc.oldHead else NULL
  }

  predicate Holds(s: State, u: Tid, n: Addr) {
    Held(At(s, u)) == n
  }

  ghost predicate Unheld(s: State, n: Addr) {
    forall u :: !Holds(s, u, n)
  }

  predicate Pushing(pc: Pc) {
    pc.PushLoad? || pc.PushCas?
  }

  /** Has taken the to_be_deleted list, or is putting nodes back on it. */
  predicate HasList(pc: Pc) {
    || pc.PopLeave? || pc.PopFree? || pc.PopFreeNode? || pc.PopWalk? || pc.PopLink? || pc.PopChain?
  }

  /** Node `n` belongs to a thread at `pc` whose private list is `ns`. */
  predicate Owns(pc: Pc, ns: seq<Addr>, n: Addr) {
    match pc
    case PushLoad(nd, _) => n == nd
    case PushCas(nd, _) => n == nd
    case PopSwap(oldHead) => n == oldHead
    case PopCheck(oldHead, _) => n == oldHead
    case PopExchange(oldHead, _) => n == oldHead
    case PopLeave(oldHead, _, _) => n == oldHead || n in ns
    case PopFree(oldHead, _, _) => n == oldHead || n in ns
    case PopFreeNode(oldHead, _, _, _) => n == oldHead || n in ns
    case PopWalk(oldHead, _, _, _) => n == oldHead || n in ns
    case PopLink(_, _, after, _) => (after != NULL && n == after) || n in ns
    case PopChain(_, _, after, _) => (after != NULL && n == after) || n in ns
    case PopDelete(oldHead, _) => n == oldHead
    case _ => false
  }

  ghost predicate Mine(a: Aux, t: Tid, n: Addr) {
    n in a.owner && a.owner[n] == Of(t)
  }

  ghost predicate MyList(s: State, a: Aux, t: Tid, first: Addr, end: Addr) {
    var ns := ListOf(a, t);
    && Distinct(ns)
    && IsChain(s.heap, first, ns, end)
    && forall n :: n in ns ==> Mine(a, t, n)
  }

  /** Enough for the address to stay allocated and never to be published again. */
  ghost predicate SafelyHeld(s: State, a: Aux, n: Addr) {
    && n in a.owner
    && (a.owner[n].Of? ==> !Pushing(At(s, a.owner[n].t)))
  }

  ghost predicate ThreadInv(s: State, a: Aux, t: Tid) {
    var ns := ListOf(a, t);
    match At(s, t)
    case PushLoad(nd, v) => Mine(a, t, nd) && nd in s.heap && s.heap[nd].data == Some(v)
    case PushCas(nd, v) => Mine(a, t, nd) && nd in s.heap && s.heap[nd].data == Some(v)
    case PopTest(oldHead) => oldHead != NULL ==> SafelyHeld(s, a, oldHead)
    case PopCas(oldHead, nxt) =>
      && oldHead != NULL && SafelyHeld(s, a, oldHead) && oldHead in s.heap
      && (a.owner[oldHead] == OnStack ==> s.heap[oldHead].next == nxt)
    case PopSwap(oldHead) => Mine(a, t, oldHead) && oldHead in s.heap && s.heap[oldHead].data.Some?
    case PopCheck(oldHead, res) => Mine(a, t, oldHead) && res.Some?
    case PopExchange(oldHead, res) => Mine(a, t, oldHead) && Unheld(s, oldHead) && res.Some?
    case PopLeave(oldHead, res, nodes) =>
      Mine(a, t, oldHead) && Unheld(s, oldHead) && res.Some? && oldHead !in ns && MyList(s, a, t, nodes, NULL)
    case PopFree(oldHead, res, cur) =>
      && Mine(a, t, oldHead) && Unheld(s, oldHead) && res.Some? && oldHead !in ns && MyList(s, a, t, cur, NULL)
      && (forall n :: n in ns ==> Unheld(s, n))
    case PopFreeNode(oldHead, res, cur, nxt) =>
      && Mine(a, t, oldHead) && Unheld(s, oldHead) && res.Some? && oldHead !in ns && MyList(s, a, t, cur, NULL)
      && (forall n :: n in ns ==> Unheld(s, n))
      && ns != [] && s.heap[cur].next == nxt
    case PopWalk(oldHead, res, first, lst) =>
      && Mine(a, t, oldHead) && Unheld(s, oldHead) && res.Some? && oldHead !in ns && MyList(s, a, t, first, NULL)
      && lst in ns
    case PopLink(first, last, after, res) =>
      && (after != NULL ==> Mine(a, t, after) && Unheld(s, after) && after !in ns) && res.Some?
      && ns != [] && ns[|ns| - 1] == last && last in s.heap && MyList(s, a, t, first, s.heap[last].next)
    case PopChain(first, last, after, res) =>
      && (after != NULL ==> Mine(a, t, after) && Unheld(s, after) && after !in ns) && res.Some?
      && ns != [] && ns[|ns| - 1] == last && last in s.heap && MyList(s, a, t, first, s.heap[last].next)
    case PopDelete(oldHead, res) => Mine(a, t, oldHead) && Unheld(s, oldHead) && res.Some?
    case PopExit(res) => res.Some?
    case _ => true
  }

  /** `ns` is the null-terminated list starting at `from`, and holds just the nodes in role `r`. */
  ghost predicate ListInv(heap: map<Addr, Node>, from: Addr, ns: seq<Addr>, owner: map<Addr, Role>, r: Role) {
    && Distinct(ns)
    && IsChain(heap, from, ns, NULL)
    && (forall n :: n in ns <==> n in owner && owner[n] == r)
  }

  ghost predicate ListsInv(s: State, a: Aux) {
    && a.owner.Keys == s.heap.Keys
    && NULL !in s.heap
    && ListInv(s.heap, s.head, a.stack, a.owner, OnStack)
    && ListInv(s.heap, s.toBeDeleted, a.pending, a.owner, OnPending)
    && (forall n :: n in a.stack ==> s.heap[n].data.Some?)
  }

  predicate OwnerInv(s: State, a: Aux, n: Addr) {
    n in a.owner && a.owner[n].Of? ==> Owns(At(s, a.owner[n].t), ListOf(a, a.owner[n].t), n)
  }

  ghost predicate OwnersInv(s: State, a: Aux) {
    forall n :: OwnerInv(s, a, n)
  }

  ghost predicate SharedInv(s: State, a: Aux) {
    ListsInv(s, a) && OwnersInv(s, a)
  }

  function InPopSet(s: State): set<Tid> {
    set t | t in s.threads && Counted(s.threads[t])
  }

  ghost predicate Inv(s: State, a: Aux) {
    && SharedInv(s, a)
    && s.inPop == |InPopSet(s)|
    && (forall t :: ThreadInv(s, a, t))
  }
}
