/** Every step of the lock-free stack keeps its invariant, and none faults. */
module LockFreeSteps {
  import opened Options
  import opened LockFreeStack

  // ---------- Preservation ----------

  /** What a step of `t` must respect so that the other threads keep their facts. */
  ghost predicate Respects(s: State, a: Aux, s': State, a': Aux, t: Tid) {
    && (forall u :: u != t ==> At(s', u) == At(s, u) && ListOf(a', u) == ListOf(a, u))
    && (forall n :: n in a.owner && a.owner[n].Of? && a.owner[n].t != t ==>
          n in a'.owner && a'.owner[n] == a.owner[n] && n in s.heap && n in s'.heap && s'.heap[n] == s.heap[n])
    && (Held(At(s', t)) == NULL || Held(At(s', t)) == Held(At(s, t)) || Held(At(s', t)) in a.stack)
    && (forall n :: n in a.owner && n !in a'.owner ==> Unheld(s, n))
    && (forall n :: n in a.owner && n in a'.owner ==>
          match a'.owner[n]
          case OnStack =>
            && n in s.heap && n in s'.heap
            && if a.owner[n] == OnStack then s'.heap[n] == s.heap[n]
               else a.owner[n] == Of(t) && Pushing(At(s, t))
          case OnPending => true
          case Of(u) => a.owner[n] == Of(u) || (u == t && !Pushing(At(s', t))))
    && (Pushing(At(s', t)) ==> Pushing(At(s, t)) || forall n :: n in a.owner ==> a.owner[n] != Of(t))
    && a'.owner.Keys == s'.heap.Keys
  }

  lemma OtherThreads(s: State, a: Aux, s': State, a': Aux, t: Tid)
    requires ListsInv(s, a) && (forall u :: ThreadInv(s, a, u))
    requires Respects(s, a, s', a', t)
    ensures forall u :: u != t ==> ThreadInv(s', a', u)
  {
    forall u | u != t ensures ThreadInv(s', a', u) {
      OtherThread(s, a, s', a', t, u);
    }
  }

  lemma StillUnheld(s: State, a: Aux, s': State, a': Aux, t: Tid, n: Addr)
    requires ListsInv(s, a)
    requires Respects(s, a, s', a', t)
    requires n != NULL && n in a.owner && a.owner[n] != OnStack
    requires Unheld(s, n)
    ensures Unheld(s', n)
  {
    forall w ensures !Holds(s', w, n) {
      assert !Holds(s, w, n);
    }
  }

  lemma MyListFrame(s: State, a: Aux, s': State, a': Aux, t: Tid, u: Tid, first: Addr, end: Addr)
    requires Respects(s, a, s', a', t) && u != t
    requires MyList(s, a, u, first, end)
    ensures MyList(s', a', u, first, end)
    ensures forall n :: n in ListOf(a, u) ==> n in s.heap && n in s'.heap && s'.heap[n] == s.heap[n]
  {
    forall n | n in ListOf(a, u) ensures Mine(a', u, n) && n in s.heap && n in s'.heap && s'.heap[n] == s.heap[n] {
      assert Mine(a, u, n);
    }
  }

  lemma OtherUnheld(s: State, a: Aux, s': State, a': Aux, t: Tid, u: Tid, n: Addr)
    requires ListsInv(s, a)
    requires Respects(s, a, s', a', t) && u != t
    requires Mine(a, u, n) && Unheld(s, n)
    ensures Mine(a', u, n) && Unheld(s', n)
  {
    StillUnheld(s, a, s', a', t, n);
  }

  lemma OtherListUnheld(s: State, a: Aux, s': State, a': Aux, t: Tid, u: Tid, first: Addr)
    requires ListsInv(s, a)
    requires Respects(s, a, s', a', t) && u != t
    requires MyList(s, a, u, first, NULL)
    requires forall n :: n in ListOf(a, u) ==> Unheld(s, n)
    ensures forall n :: n in ListOf(a, u) ==> Unheld(s', n)
  {
    forall n | n in ListOf(a, u) ensures Unheld(s', n) {
      OtherUnheld(s, a, s', a', t, u, n);
    }
  }

  lemma OtherHeld(s: State, a: Aux, s': State, a': Aux, t: Tid, u: Tid, n: Addr)
    requires ListsInv(s, a)
    requires Respects(s, a, s', a', t) && u != t
    requires SafelyHeld(s, a, n) && Held(At(s, u)) == n
    ensures SafelyHeld(s', a', n) && n in s.heap && n in s'.heap
    ensures a'.owner[n] == OnStack ==> a.owner[n] == OnStack && s'.heap[n].next == s.heap[n].next
  {
    assert Holds(s, u, n);
    assert n in a'.owner;
  }

  lemma OtherReclaimer(s: State, a: Aux, s': State, a': Aux, t: Tid, u: Tid)
    requires ListsInv(s, a) && ThreadInv(s, a, u)
    requires Respects(s, a, s', a', t) && u != t
    requires At(s, u).PopLeave? || At(s, u).PopFree? || At(s, u).PopFreeNode? || At(s, u).PopWalk?
    ensures ThreadInv(s', a', u)
  {
    assert At(s', u) == At(s, u) && ListOf(a', u) == ListOf(a, u);
    var pc := At(s, u);
    var first := match pc
      case PopLeave(_, _, nodes) => nodes
      case PopFree(_, _, cur) => cur
      case PopFreeNode(_, _, cur, _) => cur
      case PopWalk(_, _, first, _) => first;
    OtherUnheld(s, a, s', a', t, u, pc.oldHead);
    MyListFrame(s, a, s', a', t, u, first, NULL);
    if pc.PopFree? || pc.PopFreeNode? {
      OtherListUnheld(s, a, s', a', t, u, first);
    }
  }

  lemma OtherLinker(s: State, a: Aux, s': State, a': Aux, t: Tid, u: Tid)
    requires ListsInv(s, a) && ThreadInv(s, a, u)
    requires Respects(s, a, s', a', t) && u != t
    requires At(s, u).PopLink? || At(s, u).PopChain?
    ensures ThreadInv(s', a', u)
  {
    assert At(s', u) == At(s, u) && ListOf(a', u) == ListOf(a, u);
    var pc := At(s, u);
    if pc.after != NULL { OtherUnheld(s, a, s', a', t, u, pc.after); }
    MyListFrame(s, a, s', a', t, u, pc.first, s.heap[pc.last].next);
  }

  lemma OtherWithoutList(s: State, a: Aux, s': State, a': Aux, t: Tid, u: Tid)
    requires ListsInv(s, a) && ThreadInv(s, a, u)
    requires Respects(s, a, s', a', t) && u != t
    requires !HasList(At(s, u))
    ensures ThreadInv(s', a', u)
  {
    assert At(s', u) == At(s, u) && ListOf(a', u) == ListOf(a, u);
    match At(s, u)
    case PopTest(oldHead) => if oldHead != NULL { OtherHeld(s, a, s', a', t, u, oldHead); }
    case PopCas(oldHead, _) => OtherHeld(s, a, s', a', t, u, oldHead);
    case PopExchange(oldHead, _) => OtherUnheld(s, a, s', a', t, u, oldHead);
    case PopDelete(oldHead, _) => OtherUnheld(s, a, s', a', t, u, oldHead);
    case _ =>
  }

  lemma OtherThread(s: State, a: Aux, s': State, a': Aux, t: Tid, u: Tid)
    requires ListsInv(s, a) && ThreadInv(s, a, u)
    requires Respects(s, a, s', a', t) && u != t
    ensures ThreadInv(s', a', u)
  {
    if !HasList(At(s, u)) {
      OtherWithoutList(s, a, s', a', t, u);
    } else if At(s, u).PopLink? || At(s, u).PopChain? {
      OtherLinker(s, a, s', a', t, u);
    } else {
      OtherReclaimer(s, a, s', a', t, u);
    }
  }

  lemma CardinalityWithout(ts: set<Tid>, ts': set<Tid>, t: Tid)
    requires forall u :: u != t ==> (u in ts <==> u in ts')
    ensures |ts'| == |ts| + (if t in ts' then 1 else 0) - (if t in ts then 1 else 0)
  {
    assert ts - {t} == ts' - {t};
    assert |ts - {t}| == |ts| - if t in ts then 1 else 0;
    assert |ts' - {t}| == |ts'| - if t in ts' then 1 else 0;
  }

  lemma InPopCount(s: State, s': State, t: Tid)
    requires forall u :: u != t ==> At(s', u) == At(s, u)
    ensures |InPopSet(s')| ==
            |InPopSet(s)| + (if Counted(At(s', t)) then 1 else 0) - (if Counted(At(s, t)) then 1 else 0)
  {
    forall u ensures u in InPopSet(s) <==> Counted(At(s, u)) {}
    forall u ensures u in InPopSet(s') <==> Counted(At(s', u)) {}
    CardinalityWithout(InPopSet(s), InPopSet(s'), t);
  }

  /** Pulls the pieces of a preserved invariant together. */
  lemma Reassemble(s: State, a: Aux, s': State, a': Aux, t: Tid)
    requires Inv(s, a) && Respects(s, a, s', a', t)
    requires SharedInv(s', a') && ThreadInv(s', a', t)
    requires s'.inPop == s.inPop + (if Counted(At(s', t)) then 1 else 0) - (if Counted(At(s, t)) then 1 else 0)
    ensures Inv(s', a')
  {
    InPopCount(s, s', t);
    OtherThreads(s, a, s', a', t);
  }

  lemma ChainFrame(heap: map<Addr, Node>, heap': map<Addr, Node>, from: Addr, ns: seq<Addr>, end: Addr)
    requires IsChain(heap, from, ns, end)
    requires forall n :: n in ns ==> n in heap' && heap'[n].next == heap[n].next
    ensures IsChain(heap', from, ns, end)
  {
  }

  lemma OwnersKept(s: State, a: Aux, s': State, a': Aux, t: Tid)
    requires OwnersInv(s, a)
    requires forall u :: u != t ==> At(s', u) == At(s, u) && ListOf(a', u) == ListOf(a, u)
    requires forall n :: n in a'.owner && a'.owner[n].Of? && a'.owner[n].t != t ==>
               n in a.owner && a.owner[n] == a'.owner[n]
    requires forall n :: Mine(a', t, n) && (Mine(a, t, n) ==> Owns(At(s, t), ListOf(a, t), n)) ==>
                           Owns(At(s', t), ListOf(a', t), n)
    ensures OwnersInv(s', a')
  {
    forall n ensures OwnerInv(s', a', n) {
      assert OwnerInv(s, a, n);
    }
  }

  /** A step that changes only the thread's own position (and perhaps the counter). */
  ghost predicate LocalStep(s: State, s': State, t: Tid) {
    && s'.heap == s.heap && s'.head == s.head && s'.toBeDeleted == s.toBeDeleted
    && (forall u :: u != t ==> At(s', u) == At(s, u))
  }

  lemma AfterLocalStep(s: State, a: Aux, s': State, t: Tid)
    requires SharedInv(s, a) && LocalStep(s, s', t)
    requires Held(At(s', t)) == NULL || Held(At(s', t)) == Held(At(s, t)) || Held(At(s', t)) in a.stack
    requires !Pushing(At(s', t))
    requires forall n :: Mine(a, t, n) && Owns(At(s, t), ListOf(a, t), n) ==> Owns(At(s', t), ListOf(a, t), n)
    ensures SharedInv(s', a) && Respects(s, a, s', a, t)
  {
    OwnersKept(s, a, s', a, t);
  }

  /** A step that rewrites one node of the thread's own. */
  ghost predicate OwnWrite(s: State, s': State, t: Tid, x: Addr) {
    && x in s.heap && x in s'.heap
    && s'.heap == s.heap[x := s'.heap[x]] && s'.head == s.head && s'.toBeDeleted == s.toBeDeleted
    && (forall u :: u != t ==> At(s', u) == At(s, u))
  }

  lemma AfterOwnWrite(s: State, a: Aux, s': State, t: Tid, x: Addr)
    requires SharedInv(s, a) && OwnWrite(s, s', t, x) && Mine(a, t, x)
    requires Held(At(s', t)) == NULL
    requires Pushing(At(s', t)) ==> Pushing(At(s, t))
    requires forall n :: Mine(a, t, n) && Owns(At(s, t), ListOf(a, t), n) ==> Owns(At(s', t), ListOf(a, t), n)
    ensures SharedInv(s', a) && Respects(s, a, s', a, t)
  {
    OwnersKept(s, a, s', a, t);
    assert x !in a.stack && x !in a.pending;
  }

  /** A step that deletes one node of the thread's own, which no thread holds. */
  ghost predicate OwnDelete(s: State, a: Aux, s': State, a': Aux, t: Tid, x: Addr) {
    && x in s.heap
    && s'.heap == s.heap - {x} && s'.head == s.head && s'.toBeDeleted == s.toBeDeleted
    && (forall u :: u != t ==> At(s', u) == At(s, u))
    && a'.owner == a.owner - {x} && a'.stack == a.stack && a'.pending == a.pending
    && (forall u :: u != t ==> ListOf(a', u) == ListOf(a, u))
  }

  lemma AfterOwnDelete(s: State, a: Aux, s': State, a': Aux, t: Tid, x: Addr)
    requires SharedInv(s, a) && OwnDelete(s, a, s', a', t, x) && Mine(a, t, x) && Unheld(s, x)
    requires Held(At(s', t)) == NULL && !Pushing(At(s', t))
    requires forall n :: Mine(a, t, n) && n != x && Owns(At(s, t), ListOf(a, t), n) ==>
               Owns(At(s', t), ListOf(a', t), n)
    ensures SharedInv(s', a') && Respects(s, a, s', a', t)
  {
    OwnersKept(s, a, s', a', t);
    assert x !in a.stack && x !in a.pending;
    ChainFrame(s.heap, s'.heap, s.head, a.stack, NULL);
    ChainFrame(s.heap, s'.heap, s.toBeDeleted, a.pending, NULL);
  }

  lemma Relink(heap: map<Addr, Node>, from: Addr, ns: seq<Addr>, end: Addr, end': Addr)
    requires Distinct(ns) && ns != [] && IsChain(heap, from, ns, end)
    ensures IsChain(SetNext(heap, ns[|ns| - 1], end'), from, ns, end')
  {
    var heap' := SetNext(heap, ns[|ns| - 1], end');
    forall i | 0 <= i < |ns| ensures heap'[ns[i]].next == Following(ns, i, end') {
      assert heap[ns[i]].next == Following(ns, i, end);
    }
  }

  /** The thread keeps its facts about its own nodes when it holds nothing new. */
  lemma StillMine(s: State, a: Aux, s': State, a': Aux, t: Tid)
    requires ListsInv(s, a) && Respects(s, a, s', a', t)
    requires Held(At(s', t)) == NULL
    ensures forall n :: n in a.owner && a.owner[n] != OnStack && Unheld(s, n) && n != NULL ==> Unheld(s', n)
  {
    forall n | n in a.owner && a.owner[n] != OnStack && Unheld(s, n) && n != NULL ensures Unheld(s', n) {
      StillUnheld(s, a, s', a', t, n);
    }
  }

  lemma CountedIsPositive(s: State, t: Tid)
    requires s.inPop == |InPopSet(s)| && Counted(At(s, t))
    ensures s.inPop > 0
  {
    assert t in InPopSet(s);
  }

  lemma Concatenated(heap: map<Addr, Node>, from: Addr, ns: seq<Addr>, mid: Addr, ms: seq<Addr>, end: Addr)
    requires ns != [] && IsChain(heap, from, ns, mid) && IsChain(heap, mid, ms, end)
    ensures IsChain(heap, from, ns + ms, end)
  {
    var all := ns + ms;
    forall i | 0 <= i < |all|
      ensures all[i] != NULL && all[i] in heap
      ensures heap[all[i]].next == Following(all, i, end)
    {
      if i < |ns| {
        assert all[i] == ns[i];
        assert heap[ns[i]].next == Following(ns, i, mid);
      } else {
        var k := i - |ns|;
        assert all[i] == ms[k];
        assert heap[ms[k]].next == Following(ms, k, end);
      }
    }
  }

  /** Moving a private segment to the front of a shared list. */
  lemma PrependList(heap: map<Addr, Node>, from: Addr, ns: seq<Addr>, mid: Addr, ms: seq<Addr>,
                    owner: map<Addr, Role>, r: Role)
    requires ns != [] && Distinct(ns) && IsChain(heap, from, ns, mid)
    requires ListInv(heap, mid, ms, owner, r)
    requires forall n :: n in ns ==> n in owner && owner[n] != r
    ensures ListInv(heap, from, ns + ms, Give(owner, ns, r), r)
  {
    Concatenated(heap, from, ns, mid, ms, NULL);
    forall i, j | 0 <= i < j < |ns + ms| ensures (ns + ms)[i] != (ns + ms)[j] {
      if i < |ns| <= j { assert ns[i] in ns && ms[j - |ns|] in ms; }
    }
  }

  lemma KeepList(heap: map<Addr, Node>, from: Addr, ns: seq<Addr>, owner: map<Addr, Role>, owner': map<Addr,
                 Role>, r: Role)
    requires ListInv(heap, from, ns, owner, r)
    requires forall n :: (n in owner && owner[n] == r) <==> (n in owner' && owner'[n] == r)
    ensures ListInv(heap, from, ns, owner', r)
  {
  }

  lemma Tail(heap: map<Addr, Node>, from: Addr, ns: seq<Addr>, end: Addr)
    requires ns != [] && Distinct(ns) && IsChain(heap, from, ns, end)
    ensures Distinct(ns[1..]) && IsChain(heap, heap[from].next, ns[1..], end)
    ensures forall n :: n in ns[1..] <==> n in ns && n != from
  {
    var tl := ns[1..];
    assert ns == [from] + tl;
    assert heap[ns[0]].next == Following(ns, 0, end);
    forall i | 0 <= i < |tl|
      ensures tl[i] != NULL && tl[i] in heap && tl[i] != from
      ensures heap[tl[i]].next == Following(tl, i, end)
    {
      assert tl[i] == ns[i + 1];
      assert heap[ns[i + 1]].next == Following(ns, i + 1, end);
    }
  }

  lemma SubsetCardinality(xs: set<Tid>, ys: set<Tid>)
    requires xs <= ys
    ensures |xs| <= |ys|
  {
    assert ys == xs + (ys - xs);
  }

  lemma AloneInPop(s: State, t: Tid)
    requires |InPopSet(s)| == 1 && Counted(At(s, t))
    ensures forall u :: u != t ==> Held(At(s, u)) == NULL
  {
    forall u | u != t ensures Held(At(s, u)) == NULL {
      if Counted(At(s, u)) {
        assert |{t, u}| == 2;
        SubsetCardinality({t, u}, InPopSet(s));
      }
    }
  }

  /** What a step of `t` from (s, a) to (s', a') must achieve locally. */
  ghost predicate Good(s: State, a: Aux, s': State, a': Aux, t: Tid) {
    && SharedInv(s', a') && Respects(s, a, s', a', t) && ThreadInv(s', a', t)
    && s'.inPop == s.inPop + (if Counted(At(s', t)) then 1 else 0) - (if Counted(At(s, t)) then 1 else 0)
  }

  lemma StepPushDone(s: State, a: Aux, t: Tid, c: Choice)
    requires SharedInv(s, a) && ThreadInv(s, a, t) && At(s, t).PushDone?
    ensures Exec(s, t, c).Ok? && Good(s, a, Exec(s, t, c).s, AuxStep(s, a, t, c), t)
  {
    var pc := At(s, t);
    var s' := Goto(s.(returned := s.returned + [OpPush(t, pc.v)]), t, Idle);
    assert Exec(s, t, c) == Ok(s') && AuxStep(s, a, t, c) == a;
    AfterLocalStep(s, a, s', t);
  }

  lemma StepPopDone(s: State, a: Aux, t: Tid, c: Choice)
    requires SharedInv(s, a) && ThreadInv(s, a, t) && At(s, t).PopDone?
    ensures Exec(s, t, c).Ok? && Good(s, a, Exec(s, t, c).s, AuxStep(s, a, t, c), t)
  {
    var pc := At(s, t);
    var s' := Goto(s.(returned := s.returned + [OpPop(t, pc.res)]), t, Idle);
    assert Exec(s, t, c) == Ok(s') && AuxStep(s, a, t, c) == a;
    AfterLocalStep(s, a, s', t);
  }

  lemma StepPopLoad(s: State, a: Aux, t: Tid, c: Choice)
    requires SharedInv(s, a) && ThreadInv(s, a, t) && At(s, t).PopLoad?
    ensures Exec(s, t, c).Ok? && Good(s, a, Exec(s, t, c).s, AuxStep(s, a, t, c), t)
  {
    var pc := At(s, t);
    var s' := Goto(s, t, PopTest(s.head));
    assert Exec(s, t, c) == Ok(s') && AuxStep(s, a, t, c) == a;
    AfterLocalStep(s, a, s', t);
  }

  lemma StepPopTest(s: State, a: Aux, t: Tid, c: Choice)
    requires SharedInv(s, a) && ThreadInv(s, a, t) && At(s, t).PopTest?
    ensures Exec(s, t, c).Ok? && Good(s, a, Exec(s, t, c).s, AuxStep(s, a, t, c), t)
  {
    var pc := At(s, t);
    var s' := Goto(s, t, if pc.oldHead == NULL then PopEmpty else PopCas(pc.oldHead, s.heap[pc.oldHead].next));
    assert Exec(s, t, c) == Ok(s') && AuxStep(s, a, t, c) == a;
    AfterLocalStep(s, a, s', t);
  }

  lemma StepPushLoad(s: State, a: Aux, t: Tid, c: Choice)
    requires SharedInv(s, a) && ThreadInv(s, a, t) && At(s, t).PushLoad?
    ensures Exec(s, t, c).Ok? && Good(s, a, Exec(s, t, c).s, AuxStep(s, a, t, c), t)
  {
    hide ListsInv;
    var pc := At(s, t);
    var s' := Goto(s.(heap := SetNext(s.heap, pc.nd, s.head)), t, PushCas(pc.nd, pc.v));
    assert Exec(s, t, c) == Ok(s') && AuxStep(s, a, t, c) == a;
    AfterOwnWrite(s, a, s', t, pc.nd);
  }

  lemma StepPopSwap(s: State, a: Aux, t: Tid, c: Choice)
    requires SharedInv(s, a) && ThreadInv(s, a, t) && At(s, t).PopSwap?
    ensures Exec(s, t, c).Ok? && Good(s, a, Exec(s, t, c).s, AuxStep(s, a, t, c), t)
  {
    var pc := At(s, t);
    var emptied := s.heap[pc.oldHead := s.heap[pc.oldHead].(data := None)];
    var s' := Goto(s.(heap := emptied), t, PopCheck(pc.oldHead, s.heap[pc.oldHead].data));
    assert Exec(s, t, c) == Ok(s') && AuxStep(s, a, t, c) == a;
    AfterOwnWrite(s, a, s', t, pc.oldHead);
  }

  lemma RelinkLast(s: State, a: Aux, t: Tid, s': State)
    requires SharedInv(s, a) && ThreadInv(s, a, t)
    requires At(s, t).PopLink? || At(s, t).PopChain?
    requires At(s, t).last in s.heap
    requires var pc := At(s, t);
             s' == Goto(s.(heap := SetNext(s.heap, pc.last, s.toBeDeleted)), t,
                        PopChain(pc.first, pc.last, pc.after, pc.res))
    ensures Good(s, a, s', a, t)
  {
    var pc := At(s, t);
    Relink(s.heap, pc.first, ListOf(a, t), s.heap[pc.last].next, s.toBeDeleted);
    AfterOwnWrite(s, a, s', t, pc.last);
    if pc.after != NULL { StillUnheld(s, a, s', a, t, pc.after); }
  }

  lemma StepPopLink(s: State, a: Aux, t: Tid, c: Choice)
    requires SharedInv(s, a) && ThreadInv(s, a, t) && At(s, t).PopLink?
    ensures Exec(s, t, c).Ok? && Good(s, a, Exec(s, t, c).s, AuxStep(s, a, t, c), t)
  {
    RelinkLast(s, a, t, Exec(s, t, c).s);
  }

  lemma StepPopDelete(s: State, a: Aux, t: Tid, c: Choice)
    requires SharedInv(s, a) && ThreadInv(s, a, t) && At(s, t).PopDelete?
    ensures Exec(s, t, c).Ok? && Good(s, a, Exec(s, t, c).s, AuxStep(s, a, t, c), t)
  {
    var pc := At(s, t);
    var s' := Goto(s.(heap := s.heap - {pc.oldHead}), t, PopDone(pc.res));
    var a' := a.(owner := a.owner - {pc.oldHead});
    assert Exec(s, t, c) == Ok(s') && AuxStep(s, a, t, c) == a';
    AfterOwnDelete(s, a, s', a', t, pc.oldHead);
  }

  lemma StepPopExit(s: State, a: Aux, t: Tid, c: Choice)
    requires SharedInv(s, a) && ThreadInv(s, a, t) && At(s, t).PopExit?
    requires s.inPop == |InPopSet(s)|
    ensures Exec(s, t, c).Ok? && Good(s, a, Exec(s, t, c).s, AuxStep(s, a, t, c), t)
  {
    CountedIsPositive(s, t);
    var pc := At(s, t);
    var s' := Goto(s.(inPop := s.inPop - 1), t, PopDone(pc.res));
    assert Exec(s, t, c) == Ok(s') && AuxStep(s, a, t, c) == a;
    AfterLocalStep(s, a, s', t);
  }

  lemma StepPopEmpty(s: State, a: Aux, t: Tid, c: Choice)
    requires SharedInv(s, a) && ThreadInv(s, a, t) && At(s, t).PopEmpty?
    requires s.inPop == |InPopSet(s)|
    ensures Exec(s, t, c).Ok? && Good(s, a, Exec(s, t, c).s, AuxStep(s, a, t, c), t)
  {
    CountedIsPositive(s, t);
    var pc := At(s, t);
    var s' := Goto(s.(inPop := s.inPop - 1), t, PopDone(None));
    assert Exec(s, t, c) == Ok(s') && AuxStep(s, a, t, c) == a;
    AfterLocalStep(s, a, s', t);
  }

  lemma FreeStarts(s: State, a: Aux, t: Tid, s': State)
    requires SharedInv(s, a) && ThreadInv(s, a, t) && At(s, t).PopFree?
    requires At(s, t).cur != NULL ==> At(s, t).cur in s.heap
    requires var pc := At(s, t);
             s' == Goto(s, t, if pc.cur == NULL then PopDelete(pc.oldHead, pc.res)
                              else PopFreeNode(pc.oldHead, pc.res, pc.cur, s.heap[pc.cur].next))
    ensures Good(s, a, s', a, t)
  {
    hide Respects;
    AfterLocalStep(s, a, s', t);
    StillMine(s, a, s', a, t);
  }

  lemma StepPopFree(s: State, a: Aux, t: Tid, c: Choice)
    requires SharedInv(s, a) && ThreadInv(s, a, t) && At(s, t).PopFree?
    ensures Exec(s, t, c).Ok? && Good(s, a, Exec(s, t, c).s, AuxStep(s, a, t, c), t)
  {
    hide Good;
    FreeStarts(s, a, t, Exec(s, t, c).s);
  }

  ghost predicate Allocates(s: State, a: Aux, t: Tid, s': State, a': Aux, x: Addr, v: Value) {
    && At(s, t) == Idle && x != NULL && x !in s.heap
    && s' == Goto(s.(heap := s.heap[x := Node(Some(v), NULL)]), t, PushLoad(x, v))
    && a' == a.(owner := a.owner[x := Of(t)])
  }

  lemma AllocatesLists(s: State, a: Aux, t: Tid, s': State, a': Aux, x: Addr, v: Value)
    requires ListsInv(s, a) && Allocates(s, a, t, s', a', x, v)
    ensures ListsInv(s', a')
  {
    ChainFrame(s.heap, s'.heap, s.head, a.stack, NULL);
    ChainFrame(s.heap, s'.heap, s.toBeDeleted, a.pending, NULL);
  }

  lemma AllocatesRespects(s: State, a: Aux, t: Tid, s': State, a': Aux, x: Addr, v: Value)
    requires ListsInv(s, a) && Allocates(s, a, t, s', a', x, v)
    requires forall n :: n in a.owner ==> a.owner[n] != Of(t)
    ensures Respects(s, a, s', a', t)
  {
  }

  lemma AllocatesGood(s: State, a: Aux, t: Tid, s': State, a': Aux, x: Addr, v: Value)
    requires SharedInv(s, a) && ThreadInv(s, a, t) && Allocates(s, a, t, s', a', x, v)
    ensures Good(s, a, s', a', t)
  {
    hide ListsInv, Respects;
    forall n | n in a.owner ensures a.owner[n] != Of(t) { assert OwnerInv(s, a, n); }
    AllocatesLists(s, a, t, s', a', x, v);
    AllocatesRespects(s, a, t, s', a', x, v);
    OwnersKept(s, a, s', a', t);
  }

  lemma StepIdle(s: State, a: Aux, t: Tid, c: Choice)
    requires SharedInv(s, a) && ThreadInv(s, a, t) && At(s, t).Idle?
    ensures Exec(s, t, c).Ok? && Good(s, a, Exec(s, t, c).s, AuxStep(s, a, t, c), t)
  {
    hide ListsInv;
    match c
    case CallPush(v, x) =>
      if x != NULL && x !in s.heap {
        AllocatesGood(s, a, t, Exec(s, t, c).s, AuxStep(s, a, t, c), x, v);
      } else {
        AfterLocalStep(s, a, s, t);
      }
    case CallPop =>
      AfterLocalStep(s, a, Goto(s.(inPop := s.inPop + 1), t, PopLoad), t);
    case Go(_) =>
      AfterLocalStep(s, a, s, t);
  }

  ghost predicate Publishes(s: State, a: Aux, t: Tid, s': State, a': Aux) {
    && At(s, t).PushCas? && At(s, t).nd in s.heap && s.head == s.heap[At(s, t).nd].next
    && s' == Goto(s.(head := At(s, t).nd), t, PushDone(At(s, t).v))
    && a' == a.(owner := Give(a.owner, [At(s, t).nd], OnStack), stack := [At(s, t).nd] + a.stack)
  }

  lemma PublishesLists(s: State, a: Aux, t: Tid, s': State, a': Aux)
    requires ListsInv(s, a) && Publishes(s, a, t, s', a')
    requires Mine(a, t, At(s, t).nd) && s.heap[At(s, t).nd].data.Some?
    ensures ListsInv(s', a')
  {
    var nd := At(s, t).nd;
    PrependList(s.heap, nd, [nd], s.head, a.stack, a.owner, OnStack);
    KeepList(s.heap, s.toBeDeleted, a.pending, a.owner, a'.owner, OnPending);
  }

  lemma PublishesRespects(s: State, a: Aux, t: Tid, s': State, a': Aux)
    requires ListsInv(s, a) && Publishes(s, a, t, s', a')
    requires Mine(a, t, At(s, t).nd) && s.heap[At(s, t).nd].data.Some?
    ensures Respects(s, a, s', a', t)
  {
  }

  lemma PublishesGood(s: State, a: Aux, t: Tid, s': State, a': Aux)
    requires SharedInv(s, a) && ThreadInv(s, a, t) && Publishes(s, a, t, s', a')
    ensures Good(s, a, s', a', t)
  {
    hide ListsInv, Respects;
    PublishesLists(s, a, t, s', a');
    PublishesRespects(s, a, t, s', a');
    OwnersKept(s, a, s', a', t);
  }

  lemma StepPushCas(s: State, a: Aux, t: Tid, c: Choice)
    requires SharedInv(s, a) && ThreadInv(s, a, t) && At(s, t).PushCas?
    ensures Exec(s, t, c).Ok? && Good(s, a, Exec(s, t, c).s, AuxStep(s, a, t, c), t)
  {
    var pc := At(s, t);
    if s.head == s.heap[pc.nd].next && !(c.Go? && c.spurious) {
      PublishesGood(s, a, t, Exec(s, t, c).s, AuxStep(s, a, t, c));
    } else {
      AfterOwnWrite(s, a, s.(heap := SetNext(s.heap, pc.nd, s.head)), t, pc.nd);
    }
  }

  ghost predicate Unlinks(s: State, a: Aux, t: Tid, s': State, a': Aux) {
    && At(s, t).PopCas? && s.head == At(s, t).oldHead && a.stack != []
    && s' == Goto(s.(head := At(s, t).nxt), t, PopSwap(s.head))
    && a' == a.(owner := a.owner[s.head := Of(t)], stack := a.stack[1..])
  }

  lemma UnlinksLists(s: State, a: Aux, t: Tid, s': State, a': Aux)
    requires ListsInv(s, a) && Unlinks(s, a, t, s', a')
    requires s.head in s.heap && s.heap[s.head].next == At(s, t).nxt
    ensures ListsInv(s', a')
  {
    Tail(s.heap, s.head, a.stack, NULL);
    KeepList(s.heap, s.toBeDeleted, a.pending, a.owner, a'.owner, OnPending);
  }

  lemma UnlinksRespects(s: State, a: Aux, t: Tid, s': State, a': Aux)
    requires ListsInv(s, a) && Unlinks(s, a, t, s', a')
    requires s.head in s.heap && s.heap[s.head].next == At(s, t).nxt
    ensures Respects(s, a, s', a', t)
  {
    assert a.stack[0] in a.stack;
  }

  lemma UnlinksGood(s: State, a: Aux, t: Tid, s': State, a': Aux)
    requires SharedInv(s, a) && ThreadInv(s, a, t) && Unlinks(s, a, t, s', a')
    ensures Good(s, a, s', a', t)
  {
    assert a.stack[0] in a.stack;
    UnlinksLists(s, a, t, s', a');
    UnlinksRespects(s, a, t, s', a');
    OwnersKept(s, a, s', a', t);
  }

  lemma StepPopCas(s: State, a: Aux, t: Tid, c: Choice)
    requires SharedInv(s, a) && ThreadInv(s, a, t) && At(s, t).PopCas?
    ensures Exec(s, t, c).Ok? && Good(s, a, Exec(s, t, c).s, AuxStep(s, a, t, c), t)
  {
    var pc := At(s, t);
    if s.head == pc.oldHead && !(c.Go? && c.spurious) {
      UnlinksGood(s, a, t, Exec(s, t, c).s, AuxStep(s, a, t, c));
    } else {
      AfterLocalStep(s, a, Goto(s, t, PopTest(s.head)), t);
    }
  }

  ghost predicate Keeps(s: State, a: Aux, t: Tid, s': State, a': Aux) {
    && At(s, t).PopCheck?
    && s' == Goto(s, t, PopLink(At(s, t).oldHead, At(s, t).oldHead, NULL, At(s, t).res))
    && a' == a.(lists := a.lists[t := [At(s, t).oldHead]])
  }

  lemma KeepsLists(s: State, a: Aux, t: Tid, s': State, a': Aux)
    requires ListsInv(s, a) && Keeps(s, a, t, s', a')
    ensures ListsInv(s', a')
  {
  }

  lemma KeepsRespects(s: State, a: Aux, t: Tid, s': State, a': Aux)
    requires ListsInv(s, a) && Keeps(s, a, t, s', a')
    ensures Respects(s, a, s', a', t)
  {
  }

  lemma KeepsGood(s: State, a: Aux, t: Tid, s': State, a': Aux)
    requires SharedInv(s, a) && ThreadInv(s, a, t) && Keeps(s, a, t, s', a')
    ensures Good(s, a, s', a', t)
  {
    hide ListsInv, Respects;
    KeepsLists(s, a, t, s', a');
    KeepsRespects(s, a, t, s', a');
    OwnersKept(s, a, s', a', t);
    assert ListOf(a', t) == [At(s, t).oldHead];
  }

  lemma StepPopCheck(s: State, a: Aux, t: Tid, c: Choice)
    requires SharedInv(s, a) && ThreadInv(s, a, t) && At(s, t).PopCheck?
    requires s.inPop == |InPopSet(s)|
    ensures Exec(s, t, c).Ok? && Good(s, a, Exec(s, t, c).s, AuxStep(s, a, t, c), t)
  {
    var pc := At(s, t);
    if s.inPop == 1 {
      var s' := Goto(s, t, PopExchange(pc.oldHead, pc.res));
      AloneInPop(s, t);
      AfterLocalStep(s, a, s', t);
      StillMine(s, a, s', a, t);
    } else {
      KeepsGood(s, a, t, Exec(s, t, c).s, AuxStep(s, a, t, c));
    }
  }

  ghost predicate Seizes(s: State, a: Aux, t: Tid, s': State, a': Aux) {
    && At(s, t).PopExchange?
    && s' == Goto(s.(toBeDeleted := NULL), t, PopLeave(At(s, t).oldHead, At(s, t).res, s.toBeDeleted))
    && a' == a.(owner := Give(a.owner, a.pending, Of(t)), pending := [], lists := a.lists[t := a.pending])
  }

  lemma SeizesLists(s: State, a: Aux, t: Tid, s': State, a': Aux)
    requires ListsInv(s, a) && Seizes(s, a, t, s', a')
    ensures ListsInv(s', a')
  {
    KeepList(s.heap, s.head, a.stack, a.owner, a'.owner, OnStack);
  }

  lemma SeizesRespects(s: State, a: Aux, t: Tid, s': State, a': Aux)
    requires ListsInv(s, a) && Seizes(s, a, t, s', a')
    ensures Respects(s, a, s', a', t)
  {
  }

  lemma SeizesGood(s: State, a: Aux, t: Tid, s': State, a': Aux)
    requires SharedInv(s, a) && ThreadInv(s, a, t) && Seizes(s, a, t, s', a')
    ensures Good(s, a, s', a', t)
  {
    hide Respects;
    SeizesLists(s, a, t, s', a');
    SeizesRespects(s, a, t, s', a');
    OwnersKept(s, a, s', a', t);
    StillMine(s, a, s', a', t);
  }

  lemma StepPopExchange(s: State, a: Aux, t: Tid, c: Choice)
    requires SharedInv(s, a) && ThreadInv(s, a, t) && At(s, t).PopExchange?
    ensures Exec(s, t, c).Ok? && Good(s, a, Exec(s, t, c).s, AuxStep(s, a, t, c), t)
  {
    SeizesGood(s, a, t, Exec(s, t, c).s, AuxStep(s, a, t, c));
  }

  lemma LeavesGood(s: State, a: Aux, t: Tid, s': State)
    requires SharedInv(s, a) && ThreadInv(s, a, t) && At(s, t).PopLeave?
    requires s.inPop == |InPopSet(s)| && s.inPop > 0
    requires var pc := At(s, t);
             s' == Goto(s.(inPop := s.inPop - 1), t,
                        if s.inPop == 1 then PopFree(pc.oldHead, pc.res, pc.nodes)
                        else if pc.nodes != NULL then PopWalk(pc.oldHead, pc.res, pc.nodes, pc.nodes)
                        else PopDelete(pc.oldHead, pc.res))
    ensures Good(s, a, s', a, t)
  {
    hide Respects;
    AfterLocalStep(s, a, s', t);
    StillMine(s, a, s', a, t);
    if s.inPop == 1 {
      AloneInPop(s, t);
    } else if At(s, t).nodes != NULL {
      assert ListOf(a, t)[0] == At(s, t).nodes;
    }
  }

  lemma StepPopLeave(s: State, a: Aux, t: Tid, c: Choice)
    requires SharedInv(s, a) && ThreadInv(s, a, t) && At(s, t).PopLeave?
    requires s.inPop == |InPopSet(s)|
    ensures Exec(s, t, c).Ok? && Good(s, a, Exec(s, t, c).s, AuxStep(s, a, t, c), t)
  {
    CountedIsPositive(s, t);
    LeavesGood(s, a, t, Exec(s, t, c).s);
  }

  ghost predicate Drops(s: State, a: Aux, t: Tid, s': State, a': Aux) {
    && At(s, t).PopFreeNode? && ListOf(a, t) != [] && At(s, t).cur == ListOf(a, t)[0]
    && s' == Goto(s.(heap := s.heap - {At(s, t).cur}), t, PopFree(At(s, t).oldHead, At(s, t).res, At(s, t).nxt))
    && a' == a.(owner := a.owner - {At(s, t).cur}, lists := a.lists[t := ListOf(a, t)[1..]])
  }

  lemma DropsLists(s: State, a: Aux, t: Tid, s': State, a': Aux)
    requires ListsInv(s, a) && Drops(s, a, t, s', a')
    requires Mine(a, t, At(s, t).cur) && Unheld(s, At(s, t).cur)
    ensures ListsInv(s', a')
  {
    ChainFrame(s.heap, s'.heap, s.head, a.stack, NULL);
    ChainFrame(s.heap, s'.heap, s.toBeDeleted, a.pending, NULL);
  }

  lemma DropsRespects(s: State, a: Aux, t: Tid, s': State, a': Aux)
    requires ListsInv(s, a) && Drops(s, a, t, s', a')
    requires Mine(a, t, At(s, t).cur) && Unheld(s, At(s, t).cur)
    ensures Respects(s, a, s', a', t)
  {
  }

  lemma DropsList(s: State, a: Aux, t: Tid, s': State, a': Aux)
    requires Drops(s, a, t, s', a') && MyList(s, a, t, At(s, t).cur, NULL)
    requires At(s, t).cur in s.heap && s.heap[At(s, t).cur].next == At(s, t).nxt
    ensures MyList(s', a', t, At(s, t).nxt, NULL)
    ensures forall n :: n in ListOf(a', t) <==> n in ListOf(a, t) && n != At(s, t).cur
  {
    var ns := ListOf(a, t);
    Tail(s.heap, At(s, t).cur, ns, NULL);
    assert ListOf(a', t) == ns[1..];
    ChainFrame(s.heap, s'.heap, At(s, t).nxt, ns[1..], NULL);
    forall n | n in ns[1..] ensures Mine(a', t, n) {
      assert Mine(a, t, n);
    }
  }

  lemma DropsGood(s: State, a: Aux, t: Tid, s': State, a': Aux)
    requires SharedInv(s, a) && ThreadInv(s, a, t) && Drops(s, a, t, s', a')
    ensures Good(s, a, s', a', t)
  {
    hide ListsInv, Respects;
    assert At(s, t).cur == ListOf(a, t)[0] && ListOf(a, t)[0] in ListOf(a, t);
    DropsList(s, a, t, s', a');
    DropsLists(s, a, t, s', a');
    DropsRespects(s, a, t, s', a');
    OwnersKept(s, a, s', a', t);
    StillMine(s, a, s', a', t);
  }

  lemma StepPopFreeNode(s: State, a: Aux, t: Tid, c: Choice)
    requires SharedInv(s, a) && ThreadInv(s, a, t) && At(s, t).PopFreeNode?
    ensures Exec(s, t, c).Ok? && Good(s, a, Exec(s, t, c).s, AuxStep(s, a, t, c), t)
  {
    assert At(s, t).cur == ListOf(a, t)[0];
    assert ListOf(a, t)[0] in ListOf(a, t);
    DropsGood(s, a, t, Exec(s, t, c).s, AuxStep(s, a, t, c));
  }

  lemma WalksGood(s: State, a: Aux, t: Tid, s': State)
    requires SharedInv(s, a) && ThreadInv(s, a, t) && At(s, t).PopWalk? && At(s, t).lst in s.heap
    requires var pc := At(s, t);
             s' == Goto(s, t, if s.heap[pc.lst].next == NULL then PopLink(pc.first, pc.lst, pc.oldHead, pc.res)
                              else PopWalk(pc.oldHead, pc.res, pc.first, s.heap[pc.lst].next))
    ensures Good(s, a, s', a, t)
  {
    hide Respects;
    var pc := At(s, t);
    var ns := ListOf(a, t);
    var i :| 0 <= i < |ns| && ns[i] == pc.lst;
    assert s.heap[pc.lst].next == Following(ns, i, NULL);
    AfterLocalStep(s, a, s', t);
    StillUnheld(s, a, s', a, t, pc.oldHead);
  }

  lemma StepPopWalk(s: State, a: Aux, t: Tid, c: Choice)
    requires SharedInv(s, a) && ThreadInv(s, a, t) && At(s, t).PopWalk?
    ensures Exec(s, t, c).Ok? && Good(s, a, Exec(s, t, c).s, AuxStep(s, a, t, c), t)
  {
    assert Mine(a, t, At(s, t).lst);
    WalksGood(s, a, t, Exec(s, t, c).s);
  }

  ghost predicate Chains(s: State, a: Aux, t: Tid, s': State, a': Aux) {
    && At(s, t).PopChain? && At(s, t).last in s.heap && s.toBeDeleted == s.heap[At(s, t).last].next
    && s' == Goto(s.(toBeDeleted := At(s, t).first), t,
                  if At(s, t).after != NULL then PopDelete(At(s, t).after, At(s, t).res) else PopExit(At(s, t).res))
    && a' == a.(owner := Give(a.owner, ListOf(a, t), OnPending), pending := ListOf(a, t) + a.pending,
                lists := a.lists[t := []])
  }

  lemma ChainsLists(s: State, a: Aux, t: Tid, s': State, a': Aux)
    requires ListsInv(s, a) && Chains(s, a, t, s', a')
    requires ListOf(a, t) != [] && Distinct(ListOf(a, t))
    requires IsChain(s.heap, At(s, t).first, ListOf(a, t), s.toBeDeleted)
    requires forall n :: n in ListOf(a, t) ==> n in a.owner && a.owner[n] == Of(t)
    ensures ListsInv(s', a')
  {
    PrependList(s.heap, At(s, t).first, ListOf(a, t), s.toBeDeleted, a.pending, a.owner, OnPending);
    KeepList(s.heap, s.head, a.stack, a.owner, a'.owner, OnStack);
  }

  lemma ChainsRespects(s: State, a: Aux, t: Tid, s': State, a': Aux)
    requires ListsInv(s, a) && Chains(s, a, t, s', a')
    requires ListOf(a, t) != [] && Distinct(ListOf(a, t))
    requires IsChain(s.heap, At(s, t).first, ListOf(a, t), s.toBeDeleted)
    requires forall n :: n in ListOf(a, t) ==> n in a.owner && a.owner[n] == Of(t)
    ensures Respects(s, a, s', a', t)
  {
  }

  lemma ChainsThread(s: State, a: Aux, t: Tid, s': State, a': Aux)
    requires ListsInv(s, a) && ThreadInv(s, a, t) && Chains(s, a, t, s', a') && Respects(s, a, s', a', t)
    ensures ThreadInv(s', a', t)
  {
    if At(s, t).after != NULL { StillUnheld(s, a, s', a', t, At(s, t).after); }
  }

  lemma ChainsGood(s: State, a: Aux, t: Tid, s': State, a': Aux)
    requires SharedInv(s, a) && ThreadInv(s, a, t) && Chains(s, a, t, s', a')
    ensures Good(s, a, s', a', t)
  {
    hide Respects;
    forall n | n in ListOf(a, t) ensures n in a.owner && a.owner[n] == Of(t) { assert Mine(a, t, n); }
    ChainsLists(s, a, t, s', a');
    ChainsRespects(s, a, t, s', a');
    OwnersKept(s, a, s', a', t);
    ChainsThread(s, a, t, s', a');
  }

  lemma StepPopChain(s: State, a: Aux, t: Tid, c: Choice)
    requires SharedInv(s, a) && ThreadInv(s, a, t) && At(s, t).PopChain?
    ensures Exec(s, t, c).Ok? && Good(s, a, Exec(s, t, c).s, AuxStep(s, a, t, c), t)
  {
    var pc := At(s, t);
    if s.toBeDeleted == s.heap[pc.last].next && !(c.Go? && c.spurious) {
      ChainsGood(s, a, t, Exec(s, t, c).s, AuxStep(s, a, t, c));
    } else {
      RelinkLast(s, a, t, Exec(s, t, c).s);
    }
  }

  /** In push, or in pop before a node is removed, or on the way out. */
  predicate Simple(pc: Pc) {
    || pc.Idle? || Pushing(pc) || pc.PushDone? || pc.PopLoad? || pc.PopTest? || pc.PopCas? || pc.PopExit?
    || pc.PopEmpty? || pc.PopDone?
  }

  lemma SimpleStep(s: State, a: Aux, t: Tid, c: Choice)
    requires SharedInv(s, a) && ThreadInv(s, a, t) && s.inPop == |InPopSet(s)| && Simple(At(s, t))
    ensures Exec(s, t, c).Ok? && Good(s, a, Exec(s, t, c).s, AuxStep(s, a, t, c), t)
  {
    match At(s, t)
    case Idle => StepIdle(s, a, t, c);
    case PushLoad(_, _) => StepPushLoad(s, a, t, c);
    case PushCas(_, _) => StepPushCas(s, a, t, c);
    case PushDone(_) => StepPushDone(s, a, t, c);
    case PopLoad => StepPopLoad(s, a, t, c);
    case PopTest(_) => StepPopTest(s, a, t, c);
    case PopCas(_, _) => StepPopCas(s, a, t, c);
    case PopExit(_) => StepPopExit(s, a, t, c);
    case PopEmpty => StepPopEmpty(s, a, t, c);
    case PopDone(_) => StepPopDone(s, a, t, c);
  }

  lemma ReclaimStep(s: State, a: Aux, t: Tid, c: Choice)
    requires SharedInv(s, a) && ThreadInv(s, a, t) && s.inPop == |InPopSet(s)| && !Simple(At(s, t))
    ensures Exec(s, t, c).Ok? && Good(s, a, Exec(s, t, c).s, AuxStep(s, a, t, c), t)
  {
    match At(s, t)
    case PopSwap(_) => StepPopSwap(s, a, t, c);
    case PopCheck(_, _) => StepPopCheck(s, a, t, c);
    case PopExchange(_, _) => StepPopExchange(s, a, t, c);
    case PopLeave(_, _, _) => StepPopLeave(s, a, t, c);
    case PopFree(_, _, _) => StepPopFree(s, a, t, c);
    case PopFreeNode(_, _, _, _) => StepPopFreeNode(s, a, t, c);
    case PopWalk(_, _, _, _) => StepPopWalk(s, a, t, c);
    case PopLink(_, _, _, _) => StepPopLink(s, a, t, c);
    case PopChain(_, _, _, _) => StepPopChain(s, a, t, c);
    case PopDelete(_, _) => StepPopDelete(s, a, t, c);
  }

  lemma Step(s: State, a: Aux, t: Tid, c: Choice)
    requires Inv(s, a)
    ensures Exec(s, t, c).Ok? && Inv(Exec(s, t, c).s, AuxStep(s, a, t, c))
    ensures Respects(s, a, Exec(s, t, c).s, AuxStep(s, a, t, c), t)
  {
    assert ThreadInv(s, a, t);
    if Simple(At(s, t)) { SimpleStep(s, a, t, c); } else { ReclaimStep(s, a, t, c); }
    Reassemble(s, a, Exec(s, t, c).s, AuxStep(s, a, t, c), t);
  }
}
