/**
 * The four threads of any/concurrency/LT_1195_fizzbuzz.cpp, with one mutex and one condition
 * variable.  A step is an operation of one thread on the mutex, the condition variable or the
 * shared counter.
 */
module FizzBuzz {
  import opened Options

  datatype Word = Fizz | Buzz | Both | Number(x: int)

  /** Where a thread is in its loop; all but Start, Asleep, Woken and Returned are inside the mutex. */
  datatype Pc =
    | Start       // about to lock the mutex
    | Holding     // in cv.wait, about to evaluate its predicate
    | Asleep      // in cv.wait, blocked
    | Woken       // in cv.wait, about to lock the mutex again
    | Printing    // its predicate holds and idx <= n
    | Printed     // about to increment idx
    | Notifying   // about to call notify_all
    | Unlocking   // at the end of the loop body
    | Leaving     // idx > n: about to call notify_one
    | Left        // about to unlock and return
    | Returned

  datatype State = State(idx: int, mutex: Option<nat>, pcs: seq<Pc>, out: seq<Word>)

  /** The threads 0 to 3 are fizz, buzz, fizzbuzz and number: what each of them waits for. */
  predicate Turn(t: nat, idx: int) {
    match t
    case 0 => idx % 3 == 0 && idx % 5 != 0
    case 1 => idx % 3 != 0 && idx % 5 == 0
    case 2 => idx % 3 == 0 && idx % 5 == 0
    case _ => idx % 3 != 0 && idx % 5 != 0
  }

  /** The predicate given to cv.wait. */
  predicate Ready(t: nat, idx: int, n: int) {
    idx > n || Turn(t, idx)
  }

  /** What thread `t` prints. */
  function Says(t: nat, idx: int): Word {
    match t
    case 0 => Fizz
    case 1 => Buzz
    case 2 => Both
    case _ => Number(idx)
  }

  function Woke(pc: Pc): Pc {
    if pc.Asleep? then Woken else pc
  }

  /** notify_all */
  function WakeAll(pcs: seq<Pc>): seq<Pc>
    requires |pcs| == 4
  {
    [Woke(pcs[0]), Woke(pcs[1]), Woke(pcs[2]), Woke(pcs[3])]
  }

  function Set(s: State, t: nat, pc: Pc): State
    requires t < |s.pcs|
  {
    s.(pcs := s.pcs[t := pc])
  }

  /** The step of thread `t`, if it is not blocked; notify_one wakes thread `w`, if that is asleep. */
  function Step(n: int, s: State, t: nat, w: nat): Option<State>
    requires |s.pcs| == 4 && t < 4 && w < 4
  {
    match s.pcs[t]
    case Start => if s.mutex.Some? then None else Some(Set(s.(mutex := Some(t)), t, Holding))
    case Holding =>
      if !Ready(t, s.idx, n) then Some(Set(s.(mutex := None), t, Asleep))
      else Some(Set(s, t, if s.idx > n then Leaving else Printing))
    case Asleep => None
    case Woken => if s.mutex.Some? then None else Some(Set(s.(mutex := Some(t)), t, Holding))
    case Printing => Some(Set(s.(out := s.out + [Says(t, s.idx)]), t, Printed))
    case Printed => Some(Set(s.(idx := s.idx + 1), t, Notifying))
    case Notifying => Some(Set(s.(pcs := WakeAll(s.pcs)), t, Unlocking))
    case Unlocking => Some(Set(s.(mutex := None), t, Start))
    case Leaving => Some(Set(Set(s, w, Woke(s.pcs[w])), t, Left))
    case Left => Some(Set(s.(mutex := None), t, Returned))
    case Returned => None
  }

  const INIT := State(1, None, [Start, Start, Start, Start], [])

  /** What the scheduler does: a thread takes a step, or wakes up for no reason. */
  datatype Action = Run(t: nat, w: nat) | Spurious(t: nat)

  predicate Meant(a: Action) {
    a.t < 4 && (a.Run? ==> a.w < 4)
  }

  function Act(n: int, s: State, a: Action): Option<State>
    requires |s.pcs| == 4 && Meant(a)
  {
    match a
    case Run(t, w) => Step(n, s, t, w)
    case Spurious(t) => if s.pcs[t].Asleep? then Some(Set(s, t, Woken)) else None
  }

  // ---------------------------------------------------------------- the specification

  /** The word for `i`, by the rules of the game. */
  function WordFor(i: int): Word {
    if i % 15 == 0 then Both else if i % 5 == 0 then Buzz else if i % 3 == 0 then Fizz else Number(i)
  }

  /** The words for 1 to `k`. */
  function Words(k: nat): seq<Word> {
    if k == 0 then [] else Words(k - 1) + [WordFor(k)]
  }

  lemma SaysWord(t: nat, idx: int)
    requires t < 4 && Turn(t, idx)
    ensures Says(t, idx) == WordFor(idx)
  {
    assert idx % 15 == 0 <==> idx % 3 == 0 && idx % 5 == 0;
  }

  // ---------------------------------------------------------------- what every step keeps

  predicate Inside(pc: Pc) {
    !pc.Start? && !pc.Asleep? && !pc.Woken? && !pc.Returned?
  }

  /** What holds of a thread on its own. */
  ghost predicate ThreadInv(n: int, s: State, t: nat)
    requires |s.pcs| == 4 && t < 4
  {
    var pc := s.pcs[t];
    && (Inside(pc) <==> s.mutex == Some(t))
    && (pc.Printing? || pc.Printed? ==> s.idx <= n && Turn(t, s.idx))
    && (pc.Leaving? || pc.Left? || pc.Returned? ==> s.idx > n)
    && (pc.Asleep? && Ready(t, s.idx, n) ==> s.mutex.Some? && s.mutex.value < 4 && s.pcs[s.mutex.value].Notifying?)
  }

  ghost predicate Inv(n: int, s: State) {
    && |s.pcs| == 4
    && 1 <= s.idx <= (if n < 0 then 0 else n) + 1
    && (s.mutex.Some? ==> s.mutex.value < 4)
    && (forall t :: 0 <= t < 4 ==> ThreadInv(n, s, t))
    && s.out == Words(if s.mutex.Some? && s.pcs[s.mutex.value].Printed? then s.idx else s.idx - 1)
  }

  /** The step is the only thing that thread `t` changes about itself. */
  lemma OwnStep(n: int, s: State, t: nat, w: nat)
    requires Inv(n, s) && t < 4 && w < 4 && Step(n, s, t, w).Some?
    ensures var q := Step(n, s, t, w).value;
            && |q.pcs| == 4 && 1 <= q.idx <= (if n < 0 then 0 else n) + 1
            && (q.mutex.Some? ==> q.mutex.value < 4)
            && ThreadInv(n, q, t)
  {
    hide Turn, Words, Says;
    assert ThreadInv(n, s, t);
  }

  /** What a step of `t` does to another thread: at most it wakes it. */
  lemma OtherThread(n: int, s: State, t: nat, w: nat, u: nat)
    requires |s.pcs| == 4 && t < 4 && w < 4 && u < 4 && u != t && Step(n, s, t, w).Some?
    ensures var q := Step(n, s, t, w).value;
            |q.pcs| == 4 && (q.pcs[u] == s.pcs[u] || (q.pcs[u].Woken? && s.pcs[u].Asleep?))
    ensures s.pcs[t].Notifying? ==> !Step(n, s, t, w).value.pcs[u].Asleep?
  {
    hide Turn, Says;
  }

  lemma OthersKeep(n: int, s: State, t: nat, w: nat, u: nat)
    requires Inv(n, s) && t < 4 && w < 4 && u < 4 && u != t && Step(n, s, t, w).Some?
    requires |Step(n, s, t, w).value.pcs| == 4
    ensures ThreadInv(n, Step(n, s, t, w).value, u)
  {
    hide Turn, Words, Says;
    assert ThreadInv(n, s, t) && ThreadInv(n, s, u);
    OtherThread(n, s, t, w, u);
    assert s.pcs[t].Printed? ==> s.mutex == Some(t);
  }

  lemma OutKeeps(n: int, s: State, t: nat, w: nat)
    requires Inv(n, s) && t < 4 && w < 4 && Step(n, s, t, w).Some?
    ensures var q := Step(n, s, t, w).value;
            && |q.pcs| == 4 && (q.mutex.Some? ==> q.mutex.value < 4) && q.idx >= 1
            && q.out == Words(if q.mutex.Some? && q.pcs[q.mutex.value].Printed? then q.idx else q.idx - 1)
  {
    hide Turn, Words, Says;
    assert ThreadInv(n, s, t);
    if s.pcs[t].Printing? {
      SaysWord(t, s.idx);
      NextWord(s.idx);
    }
  }

  lemma StepKeeps(n: int, s: State, t: nat, w: nat)
    requires Inv(n, s) && t < 4 && w < 4 && Step(n, s, t, w).Some?
    ensures Inv(n, Step(n, s, t, w).value)
  {
    hide Step, ThreadInv, Words;
    OwnStep(n, s, t, w);
    OutKeeps(n, s, t, w);
    forall u | 0 <= u < 4 ensures ThreadInv(n, Step(n, s, t, w).value, u) {
      if u != t { OthersKeep(n, s, t, w, u); }
    }
  }

  lemma NextWord(k: nat)
    requires k > 0
    ensures Words(k) == Words(k - 1) + [WordFor(k)]
  {
  }

  lemma ActKeeps(n: int, s: State, a: Action)
    requires Inv(n, s) && Meant(a) && Act(n, s, a).Some?
    ensures Inv(n, Act(n, s, a).value)
  {
    match a
    case Run(t, w) => StepKeeps(n, s, t, w);
    case Spurious(t) =>
      assert ThreadInv(n, s, t);
      forall u | 0 <= u < 4 ensures ThreadInv(n, Act(n, s, a).value, u) { assert ThreadInv(n, s, u); }
  }

  lemma InitInv(n: int)
    ensures Inv(n, INIT)
  {
  }

  // ---------------------------------------------------------------- runs

  /** The state after the first `k` actions of a schedule; an action that is not possible changes nothing. */
  function After(n: int, schedule: seq<Action>, k: nat): (s: State)
    requires k <= |schedule| && forall i :: 0 <= i < |schedule| ==> Meant(schedule[i])
    ensures |s.pcs| == 4
  {
    if k == 0 then INIT
    else
      var s := After(n, schedule, k - 1);
      var o := Act(n, s, schedule[k - 1]);
      if o.Some? then o.value else s
  }

  /** How many of the first `k` actions were steps of a thread, and how many spurious wakeups. */
  function Steps(n: int, schedule: seq<Action>, k: nat): nat
    requires k <= |schedule| && forall i :: 0 <= i < |schedule| ==> Meant(schedule[i])
  {
    if k == 0 then 0
    else
      var taken := schedule[k - 1].Run? && Act(n, After(n, schedule, k - 1), schedule[k - 1]).Some?;
      Steps(n, schedule, k - 1) + if taken then 1 else 0
  }

  function Wakeups(schedule: seq<Action>, k: nat): nat
    requires k <= |schedule|
  {
    if k == 0 then 0 else Wakeups(schedule, k - 1) + if schedule[k - 1].Spurious? then 1 else 0
  }

  lemma {:induction false} AlwaysInv(n: int, schedule: seq<Action>, k: nat)
    requires k <= |schedule| && forall i :: 0 <= i < |schedule| ==> Meant(schedule[i])
    ensures Inv(n, After(n, schedule, k))
  {
    hide Inv, Act;
    if k == 0 {
      InitInv(n);
    } else {
      AlwaysInv(n, schedule, k - 1);
      var s := After(n, schedule, k - 1);
      if Act(n, s, schedule[k - 1]).Some? { ActKeeps(n, s, schedule[k - 1]); }
    }
  }

  /** How far a thread is from returning if the counter never changes again. */
  function Rank(pc: Pc): nat {
    match pc
    case Start => 12 case Holding => 11 case Asleep => 10 case Woken => 12
    case Printing => 9 case Printed => 8 case Notifying => 20 case Unlocking => 13
    case Leaving => 4 case Left => 1 case Returned => 0
  }

  function Measure(n: int, s: State): int
    requires |s.pcs| == 4
  {
    13 * ((if n < 0 then 0 else n) + 1 - s.idx) + Rank(s.pcs[0]) + Rank(s.pcs[1]) + Rank(s.pcs[2]) + Rank(s.pcs[3])
  }

  /** Every step of a thread lowers the measure; a spurious wakeup raises it by two. */
  lemma ActLowers(n: int, s: State, a: Action)
    requires |s.pcs| == 4 && Inv(n, s) && Meant(a) && Act(n, s, a).Some?
    ensures Measure(n, Act(n, s, a).value) <= Measure(n, s) + (if a.Run? then -1 else 2)
  {
    hide Turn, Words, Says, Step, Rank, Inv;
    var t := a.t;
    match a
    case Run(_, w) =>
      OwnRank(n, s, t, w);
      forall u | 0 <= u < 4 && u != t
        ensures Rank(Step(n, s, t, w).value.pcs[u]) - Rank(s.pcs[u])
             <= if s.pcs[t].Notifying? || (s.pcs[t].Leaving? && u == w) then 2 else 0
      {
        OtherRank(n, s, t, w, u);
      }
      assert t == 0 || t == 1 || t == 2 || t == 3;
    case Spurious(_) =>
      WakeRank();
      assert t == 0 || t == 1 || t == 2 || t == 3;
  }

  lemma WakeRank()
    ensures Rank(Woken) == Rank(Asleep) + 2
  {
  }

  lemma OwnRank(n: int, s: State, t: nat, w: nat)
    requires Inv(n, s) && t < 4 && w < 4 && Step(n, s, t, w).Some?
    ensures var q := Step(n, s, t, w).value; var pc := s.pcs[t];
            && |q.pcs| == 4
            && Rank(q.pcs[t]) - Rank(pc) - 13 * (q.idx - s.idx)
               <= if pc.Notifying? then -7 else if pc.Leaving? then -3 else -1
  {
    hide Turn, Words, Says;
    assert ThreadInv(n, s, t);
  }

  lemma OtherRank(n: int, s: State, t: nat, w: nat, u: nat)
    requires |s.pcs| == 4 && t < 4 && w < 4 && u < 4 && u != t && Step(n, s, t, w).Some?
    ensures var q := Step(n, s, t, w).value;
            && |q.pcs| == 4
            && Rank(q.pcs[u]) - Rank(s.pcs[u]) <= if s.pcs[t].Notifying? || (s.pcs[t].Leaving? && u == w) then 2 else 0
  {
    hide Turn, Says;
  }

  /** Every run is finite: the number of steps is bounded, with two more for every spurious wakeup. */
  lemma {:induction false} Bounded(n: int, schedule: seq<Action>, k: nat)
    requires k <= |schedule| && forall i :: 0 <= i < |schedule| ==> Meant(schedule[i])
    ensures Steps(n, schedule, k) + Measure(n, After(n, schedule, k))
         <= 13 * (if n < 0 then 0 else n) + 48 + 2 * Wakeups(schedule, k)
    ensures Measure(n, After(n, schedule, k)) >= 0
  {
    hide Inv, Act, Measure;
    AlwaysInv(n, schedule, k);
    MeasureBounds(n, After(n, schedule, k));
    if k > 0 {
      AlwaysInv(n, schedule, k - 1);
      Bounded(n, schedule, k - 1);
      var s := After(n, schedule, k - 1);
      if Act(n, s, schedule[k - 1]).Some? { ActLowers(n, s, schedule[k - 1]); }
    }
  }

  lemma MeasureBounds(n: int, s: State)
    requires Inv(n, s)
    ensures Measure(n, s) >= 0
    ensures Measure(n, INIT) == 13 * (if n < 0 then 0 else n) + 48
  {
  }

  /** When the mutex is free, no thread sleeps whose predicate holds. */
  lemma NobodyOversleeps(n: int, schedule: seq<Action>, t: nat)
    requires t < 4 && forall i :: 0 <= i < |schedule| ==> Meant(schedule[i])
    ensures var s := After(n, schedule, |schedule|);
            s.mutex.None? && s.pcs[t].Asleep? ==> !Ready(t, s.idx, n)
  {
    AlwaysInv(n, schedule, |schedule|);
    assert ThreadInv(n, After(n, schedule, |schedule|), t);
  }

  /** The thread whose turn it is. */
  function Whose(idx: int): (t: nat)
    ensures t < 4 && Turn(t, idx)
  {
    if idx % 3 == 0 then if idx % 5 == 0 then 2 else 0 else if idx % 5 == 0 then 1 else 3
  }

  /** No deadlock: as long as some thread has not returned, some thread can take a step. */
  lemma NoDeadlock(n: int, s: State)
    requires Inv(n, s) && exists t :: 0 <= t < 4 && !s.pcs[t].Returned?
    ensures exists t :: 0 <= t < 4 && Step(n, s, t, t).Some?
  {
    hide Turn, Words, Says, Whose;
    var t :| 0 <= t < 4 && !s.pcs[t].Returned?;
    var u: nat := if s.mutex.Some? then s.mutex.value else if s.idx > n then t else Whose(s.idx);
    assert ThreadInv(n, s, t) && ThreadInv(n, s, u);
    assert Step(n, s, u, u).Some?;
  }

  /** The words printed so far are always a prefix of the right ones, and the counter stays within n + 1. */
  lemma PrintsInOrder(n: int, schedule: seq<Action>)
    requires forall i :: 0 <= i < |schedule| ==> Meant(schedule[i])
    ensures var s := After(n, schedule, |schedule|);
            && 1 <= s.idx <= (if n < 0 then 0 else n) + 1
            && |s.out| <= (if n < 0 then 0 else n) && s.out == Words(|s.out|)
  {
    AlwaysInv(n, schedule, |schedule|);
    var s := After(n, schedule, |schedule|);
    if s.mutex.Some? { assert ThreadInv(n, s, s.mutex.value); }
    WordsLength(if s.mutex.Some? && s.pcs[s.mutex.value].Printed? then s.idx else s.idx - 1);
  }

  lemma {:induction false} WordsLength(k: nat)
    ensures |Words(k)| == k
  {
    if k > 0 { WordsLength(k - 1); }
  }

  /**
   * A run that cannot go on (which every fair one reaches, being finite) has all four threads
   * returned and has printed exactly the words for 1 to n.
   */
  lemma EndsWithAllWords(n: int, schedule: seq<Action>)
    requires forall i :: 0 <= i < |schedule| ==> Meant(schedule[i])
    requires forall t :: 0 <= t < 4 ==> Step(n, After(n, schedule, |schedule|), t, t).None?
    ensures var s := After(n, schedule, |schedule|);
            (forall t :: 0 <= t < 4 ==> s.pcs[t].Returned?) && s.out == Words(if n < 0 then 0 else n)
  {
    AlwaysInv(n, schedule, |schedule|);
    var s := After(n, schedule, |schedule|);
    if exists t :: 0 <= t < 4 && !s.pcs[t].Returned? {
      NoDeadlock(n, s);
      assert false;
    }
    assert ThreadInv(n, s, 0) && ThreadInv(n, s, if s.mutex.Some? then s.mutex.value else 0);
  }
}
