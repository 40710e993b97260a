/**
 * The two searches of cpp_concurrency_2nd/parallel_find_accu_async_for_each.cpp that share a
 * flag `done`: parallel_find_async, which halves the range recursively, and parallel_find,
 * which cuts it into one block for each thread and collects the result in a promise.
 * Iterators are positions in the sequence searched; comparing elements does not throw.
 */
module ParallelFind {
  import opened Options

  // ---------------------------------------------------------------- a scan

  /** Where the loop over one range stands; `Finished` holds the position returned. */
  datatype Phase = Load | Compare | Store | Finished(result: nat)

  /** One loop over [lo, hi): the next position, and the next access to `done` or to an element. */
  datatype Scan = Scan(lo: nat, hi: nat, pos: nat, phase: Phase)

  /** The next step of a scan; the flag it leaves behind is the second result. */
  function ScanStep<T(==)>(a: seq<T>, need: T, s: Scan, done: bool): (Scan, bool) {
    match s.phase
    case Load => (s.(phase := if s.pos >= s.hi || done then Finished(s.hi) else Compare), done)
    case Compare =>
      if s.pos < |a| && a[s.pos] == need then (s.(phase := Store), done)
      else (s.(pos := s.pos + 1, phase := Load), done)
    case Store => (s.(phase := Finished(s.pos)), true)
    case Finished(_) => (s, done)
  }

  ghost predicate NoMatch<T>(a: seq<T>, need: T, lo: nat, hi: nat) {
    forall i :: lo <= i < hi && i < |a| ==> a[i] != need
  }

  /** The scan has found an element and returned. */
  predicate Found(s: Scan) {
    s.phase.Finished? && s.phase.result != s.hi
  }

  /** What holds of a scan: it has missed nothing, unless it stopped because of the flag. */
  ghost predicate ScanInv<T>(a: seq<T>, need: T, s: Scan, done: bool) {
    && s.lo <= s.pos <= s.hi <= |a| && NoMatch(a, need, s.lo, s.pos)
    && match s.phase
       case Load => true
       case Compare => s.pos < s.hi
       case Store => s.pos < s.hi && a[s.pos] == need
       case Finished(r) =>
         && s.lo <= r <= s.hi
         && if r == s.hi then done || NoMatch(a, need, s.lo, s.hi) else a[r] == need
  }

  lemma {:induction false} ScanStepKeeps<T>(a: seq<T>, need: T, s: Scan, done: bool)
    requires ScanInv(a, need, s, done)
    ensures ScanInv(a, need, ScanStep(a, need, s, done).0, ScanStep(a, need, s, done).1)
    ensures done ==> ScanStep(a, need, s, done).1
    ensures ScanStep(a, need, s, done).1 ==> done || Found(ScanStep(a, need, s, done).0)
    ensures Found(s) ==> ScanStep(a, need, s, done) == (s, done)
    ensures ScanStep(a, need, s, done).0.lo == s.lo && ScanStep(a, need, s, done).0.hi == s.hi
  {
  }

  /** How many steps a scan has left at most. */
  function ScanLeft(s: Scan): nat {
    var rest: nat := if s.pos < s.hi then s.hi - s.pos else 0;
    match s.phase
    case Load => 2 * rest + 2
    case Compare => 2 * rest + 1
    case Store => 1
    case Finished(_) => 0
  }

  /** How many steps a scan still takes once the flag is up. */
  function ScanRest(s: Scan): nat {
    match s.phase case Load => 1 case Compare => 2 case Store => 1 case Finished(_) => 0
  }

  /** Once the flag is up, a scan compares at most the element it is at, and ends. */
  lemma {:induction false} ScanStopsEarly<T>(a: seq<T>, need: T, s: Scan)
    ensures var (q, d) := ScanStep(a, need, s, true);
            d && (if s.phase.Finished? then q == s else ScanRest(q) < ScanRest(s)) && q.pos <= s.pos + 1
  {
  }

  // ---------------------------------------------------------------- parallel_find_async

  const MIN_PER_THREAD := 25

  /**
   * The calls of parallel_find_async_impl: the right half of a node may run at any time, or only
   * when it is asked for.
   */
  datatype Task = Leaf(s: Scan) | Node(lo: nat, mid: nat, hi: nat, left: Task, right: Task)

  function Start(lo: nat, hi: nat): Task
    requires lo <= hi
    decreases hi - lo
  {
    if hi - lo < 2 * MIN_PER_THREAD then Leaf(Scan(lo, hi, lo, Load))
    else
      var mid := lo + (hi - lo) / 2;
      Node(lo, mid, hi, Start(lo, mid), Start(mid, hi))
  }

  /** The scans of a task, from left to right. */
  function Scans(t: Task): seq<Scan> {
    match t
    case Leaf(s) => [s]
    case Node(_, _, _, left, right) => Scans(left) + Scans(right)
  }

  /**
   * The work is shared out evenly: fewer than 50 elements are one scan, and more are scans of 25 to
   * 49 elements.
   */
  lemma {:induction false} ScanSizes(lo: nat, hi: nat, i: nat)
    requires lo <= hi
    ensures hi - lo < 50 ==> Scans(Start(lo, hi)) == [Scan(lo, hi, lo, Load)]
    ensures hi - lo >= 50 && i < |Scans(Start(lo, hi))| ==>
              var s := Scans(Start(lo, hi))[i]; 25 <= s.hi - s.lo < 50 && s.pos == s.lo
    decreases hi - lo
  {
    if hi - lo >= 50 {
      var mid := lo + (hi - lo) / 2;
      var lefts := |Scans(Start(lo, mid))|;
      ScanSizes(lo, mid, i);
      ScanSizes(mid, hi, if i < lefts then 0 else i - lefts);
    }
  }

  /** What a call returns, as soon as it can: the right half counts only if the left one returned its end. */
  function Result(t: Task): Option<nat> {
    match t
    case Leaf(s) => if s.phase.Finished? then Some(s.phase.result) else None
    case Node(_, mid, _, left, right) =>
      match Result(left)
      case None => None
      case Some(r) => if r == mid then Result(right) else Some(r)
  }

  /** A step of the scan that `path` leads to: true is to the right. */
  function TaskStep<T(==)>(a: seq<T>, need: T, t: Task, done: bool, path: seq<bool>): (Task, bool)
    decreases t
  {
    match t
    case Leaf(s) => var (q, d) := ScanStep(a, need, s, done); (Leaf(q), d)
    case Node(_, _, _, left, right) =>
      if path == [] then (t, done)
      else if path[0] then var (q, d) := TaskStep(a, need, right, done, path[1..]); (t.(right := q), d)
      else var (q, d) := TaskStep(a, need, left, done, path[1..]); (t.(left := q), d)
  }

  /** The task after the first `k` steps of a schedule. */
  function Run<T(==)>(a: seq<T>, need: T, schedule: seq<seq<bool>>, k: nat): (Task, bool)
    requires k <= |schedule|
  {
    if k == 0 then (Start(0, |a|), false)
    else
      var (t, done) := Run(a, need, schedule, k - 1);
      TaskStep(a, need, t, done, schedule[k - 1])
  }

  function Lo(t: Task): nat {
    match t case Leaf(s) => s.lo case Node(lo, _, _, _, _) => lo
  }

  function Hi(t: Task): nat {
    match t case Leaf(s) => s.hi case Node(_, _, hi, _, _) => hi
  }

  predicate AnyFound(t: Task) {
    match t case Leaf(s) => Found(s) case Node(_, _, _, left, right) => AnyFound(left) || AnyFound(right)
  }

  /** Every scan is in order, and the ranges fit together. */
  ghost predicate TaskInv<T>(a: seq<T>, need: T, t: Task, done: bool) {
    match t
    case Leaf(s) => ScanInv(a, need, s, done)
    case Node(lo, mid, hi, left, right) =>
      && lo < mid < hi && Lo(left) == lo && Hi(left) == mid == Lo(right) && Hi(right) == hi
      && TaskInv(a, need, left, done) && TaskInv(a, need, right, done)
  }

  lemma {:induction false} StartInv<T>(a: seq<T>, need: T, lo: nat, hi: nat)
    requires lo <= hi <= |a|
    ensures var t := Start(lo, hi);
            TaskInv(a, need, t, false) && !AnyFound(t) && Lo(t) == lo && Hi(t) == hi
    decreases hi - lo
  {
    if hi - lo >= 2 * MIN_PER_THREAD {
      var mid := lo + (hi - lo) / 2;
      StartInv(a, need, lo, mid);
      StartInv(a, need, mid, hi);
    }
  }

  /** Raising the flag harms no scan. */
  lemma {:induction false} FlagKeeps<T>(a: seq<T>, need: T, t: Task, done: bool)
    requires TaskInv(a, need, t, done)
    ensures TaskInv(a, need, t, true)
  {
    if t.Node? {
      FlagKeeps(a, need, t.left, done);
      FlagKeeps(a, need, t.right, done);
    }
  }

  lemma {:induction false} TaskStepKeeps<T>(a: seq<T>, need: T, t: Task, done: bool, path: seq<bool>)
    requires TaskInv(a, need, t, done)
    ensures var (q, d) := TaskStep(a, need, t, done, path);
            && TaskInv(a, need, q, d) && Lo(q) == Lo(t) && Hi(q) == Hi(t) && (done ==> d)
            && (d ==> done || AnyFound(q)) && (AnyFound(t) ==> AnyFound(q))
    decreases t
  {
    match t
    case Leaf(s) => ScanStepKeeps(a, need, s, done);
    case Node(_, _, _, left, right) =>
      if path != [] {
        var half, other := if path[0] then right else left, if path[0] then left else right;
        TaskStepKeeps(a, need, half, done, path[1..]);
        FlagKeeps(a, need, other, done);
      }
  }

  lemma {:induction false} RunKeeps<T>(a: seq<T>, need: T, schedule: seq<seq<bool>>, k: nat)
    requires k <= |schedule|
    ensures var (t, done) := Run(a, need, schedule, k);
            && TaskInv(a, need, t, done) && Lo(t) == 0 && Hi(t) == |a| && (done ==> AnyFound(t))
  {
    if k == 0 {
      StartInv(a, need, 0, |a|);
    } else {
      RunKeeps(a, need, schedule, k - 1);
      var (t, done) := Run(a, need, schedule, k - 1);
      TaskStepKeeps(a, need, t, done, schedule[k - 1]);
    }
  }

  lemma {:induction false} HiInRange<T>(a: seq<T>, need: T, t: Task, done: bool)
    requires TaskInv(a, need, t, done)
    ensures Hi(t) <= |a|
  {
    if t.Node? { HiInRange(a, need, t.right, done); }
  }

  /** A call that returns its end has found nothing; if also the flag is down, there is nothing to find. */
  lemma {:induction false} ResultMeans<T>(a: seq<T>, need: T, t: Task, done: bool)
    requires TaskInv(a, need, t, done) && Result(t).Some?
    ensures var r := Result(t).value;
            && Lo(t) <= r <= Hi(t) <= |a|
            && if r != Hi(t) then a[r] == need else !AnyFound(t) && (!done ==> NoMatch(a, need, Lo(t), Hi(t)))
  {
    HiInRange(a, need, t, done);
    if t.Node? {
      ResultMeans(a, need, t.left, done);
      if Result(t.left).value == t.mid { ResultMeans(a, need, t.right, done); }
    }
  }

  /**
   * In every interleaving, whenever parallel_find_async can return, it returns the end if and
   * only if nothing matches, and otherwise the position of a match.
   */
  lemma {:induction false} AsyncFinds<T>(a: seq<T>, need: T, schedule: seq<seq<bool>>)
    requires Result(Run(a, need, schedule, |schedule|).0).Some?
    ensures var r := Result(Run(a, need, schedule, |schedule|).0).value;
            (r == |a| <==> need !in a) && (r != |a| ==> r < |a| && a[r] == need)
  {
    RunKeeps(a, need, schedule, |schedule|);
    var (t, done) := Run(a, need, schedule, |schedule|);
    ResultMeans(a, need, t, done);
  }

  /** How many steps are left at most in the scans below `t`. */
  function Left(t: Task): nat {
    match t
    case Leaf(s) => ScanLeft(s)
    case Node(_, _, _, left, right) => Left(left) + Left(right)
  }

  /** Whether `path` leads to a scan that is not finished. */
  predicate Enabled(t: Task, path: seq<bool>)
    decreases t
  {
    match t
    case Leaf(s) => !s.phase.Finished?
    case Node(_, _, _, left, right) => path != [] && Enabled(if path[0] then right else left, path[1..])
  }

  /** Every step of an unfinished scan brings the end nearer. */
  lemma {:induction false} StepsEnd<T>(a: seq<T>, need: T, t: Task, done: bool, path: seq<bool>)
    requires TaskInv(a, need, t, done)
    ensures var q := TaskStep(a, need, t, done, path).0;
            if Enabled(t, path) then Left(q) < Left(t) else q == t
    decreases t
  {
    if t.Node? && path != [] { StepsEnd(a, need, if path[0] then t.right else t.left, done, path[1..]); }
  }

  /** As long as a call cannot return, one of its scans is not finished. */
  lemma {:induction false} NeverStuck(t: Task) returns (path: seq<bool>)
    requires Result(t).None?
    ensures Enabled(t, path)
  {
    match t
    case Leaf(_) => path := [];
    case Node(_, mid, _, left, right) =>
      if Result(left).None? {
        var p := NeverStuck(left);
        path := [false] + p;
      } else {
        var p := NeverStuck(right);
        path := [true] + p;
      }
  }

  // ---------------------------------------------------------------- parallel_find

  /** How many threads search `n` elements when the hardware offers `hardware` (0 if unknown). */
  function Threads(n: nat, hardware: nat): (k: nat)
    requires n > 0
    ensures 0 < k <= n
  {
    var most := (n + MIN_PER_THREAD - 1) / MIN_PER_THREAD;
    var offered := if hardware == 0 then 2 else hardware;
    if offered < most then offered else most
  }

  /**
   * No thread is started for less than 25 elements before it, and as many as the hardware offers,
   * two if that is unknown, are started unless fewer suffice.
   */
  lemma ThreadsMeans(n: nat, hardware: nat)
    requires n > 0
    ensures var k := Threads(n, hardware); var offered := if hardware > 0 then hardware else 2;
            25 * (k - 1) < n && k <= offered && (k < offered ==> n <= 25 * k)
  {
  }

  /** The blocks follow one another and cover all positions. */
  ghost predicate Tiles(blocks: seq<(nat, nat)>, n: nat) {
    && blocks != [] && blocks[0].0 == 0 && blocks[|blocks| - 1].1 == n
    && (forall i :: 0 <= i < |blocks| ==> blocks[i].0 < blocks[i].1 <= n)
    && (forall i :: 0 < i < |blocks| ==> blocks[i].0 == blocks[i - 1].1)
  }

  /**
   * The blocks of parallel_find, as of parallel_accumulate: all have the same size but the last,
   * which takes the rest.
   */
  method Blocks(n: nat, hardware: nat) returns (blocks: seq<(nat, nat)>)
    requires n > 0
    ensures |blocks| == Threads(n, hardware) && Tiles(blocks, n)
    ensures forall i :: 0 <= i < |blocks| - 1 ==> blocks[i].1 - blocks[i].0 == n / |blocks|
  {
    hide Threads;
    var threads := Threads(n, hardware);
    var size := n / threads;
    SizeFits(n, threads);
    blocks := [];
    var st: nat := 0;
    ghost var room := threads * size;
    for i := 0 to threads - 1
      invariant |blocks| == i && st + room <= n && room == (threads - i) * size
      invariant if i == 0 then st == 0 else Tiles(blocks, st)
      invariant forall k :: 0 <= k < i ==> blocks[k].1 - blocks[k].0 == size
    {
      room := room - size;
      OneLess(threads - i, size);
      var en := st + size;
      blocks := blocks + [(st, en)];
      st := en;
    }
    SizeIsOne(size);
    blocks := blocks + [(st, n)];
  }

  lemma {:induction false} SizeFits(n: nat, threads: nat)
    requires 0 < threads <= n
    ensures n / threads > 0 && threads * (n / threads) <= n
  {
    assert n == threads * (n / threads) + n % threads;
  }

  lemma {:induction false} OneLess(k: nat, size: nat)
    requires k > 0
    ensures k * size - size == (k - 1) * size
  {
  }

  lemma {:induction false} SizeIsOne(size: nat)
    ensures 1 * size == size
  {
  }

  /** The sum of the elements from `lo` to `hi`. */
  function Sum(a: seq<int>, lo: nat, hi: nat): int
    requires lo <= hi <= |a|
    decreases hi
  {
    if lo == hi then 0 else Sum(a, lo, hi - 1) + a[hi - 1]
  }

  lemma {:induction false} SumSplits(a: seq<int>, lo: nat, mid: nat, hi: nat)
    requires lo <= mid <= hi <= |a|
    ensures Sum(a, lo, hi) == Sum(a, lo, mid) + Sum(a, mid, hi)
    decreases hi
  {
    if mid < hi { SumSplits(a, lo, mid, hi - 1); }
  }

  /** accumulate_block: adds up one block, starting from what its place holds. */
  method AccumulateBlock(a: seq<int>, st: nat, en: nat, start: int) returns (result: int)
    requires st <= en <= |a|
    ensures result == start + Sum(a, st, en)
  {
    result := start;
    for j := st to en
      invariant result == start + Sum(a, st, j)
    {
      result := result + a[j];
    }
  }

  /** The first `n` places hold the sums of their blocks. */
  ghost predicate Summed(a: seq<int>, blocks: seq<(nat, nat)>, results: seq<int>, n: nat) {
    && n <= |blocks| == |results|
    && (forall k :: 0 <= k < n ==> blocks[k].0 <= blocks[k].1 <= |a| && results[k] == Sum(a, blocks[k].0, blocks[k].1))
    && (forall k :: n <= k < |blocks| ==> results[k] == 0)
  }

  lemma {:induction false} SummedNext(a: seq<int>, blocks: seq<(nat, nat)>, results: seq<int>, n: nat)
    requires Summed(a, blocks, results, n) && n < |blocks| && blocks[n].0 <= blocks[n].1 <= |a|
    ensures Summed(a, blocks, results[n := Sum(a, blocks[n].0, blocks[n].1)], n + 1)
  {
    hide Sum;
  }

  /**
   * parallel_accumulate: each thread adds up its own block into its own place, in any order of
   * the threads, and the places are added up at the end.
   */
  method Accumulate(a: seq<int>, init: int, hardware: nat) returns (total: int)
    ensures total == init + Sum(a, 0, |a|)
  {
    hide Summed, Threads;
    if |a| == 0 { return init; }
    var blocks := Blocks(|a|, hardware);
    var results := seq(|blocks|, _ => 0);
    NoneSummed(a, blocks, results);
    for i := 0 to |blocks|
      invariant |results| == |blocks| && Summed(a, blocks, results, i)
    {
      SummedAt(a, blocks, results, i, i);
      SummedNext(a, blocks, results, i);
      var sum := AccumulateBlock(a, blocks[i].0, blocks[i].1, results[i]);
      results := results[i := sum];
    }
    total := init;
    for i := 0 to |blocks|
      invariant total == init + Sum(a, 0, if i == 0 then 0 else blocks[i - 1].1)
    {
      SummedAt(a, blocks, results, |blocks|, i);
      SumSplits(a, 0, blocks[i].0, blocks[i].1);
      total := total + results[i];
    }
  }

  lemma {:induction false} NoneSummed(a: seq<int>, blocks: seq<(nat, nat)>, results: seq<int>)
    requires |results| == |blocks| && forall k :: 0 <= k < |blocks| ==> results[k] == 0
    ensures Summed(a, blocks, results, 0)
  {
  }

  lemma {:induction false} SummedAt(a: seq<int>, blocks: seq<(nat, nat)>, results: seq<int>, n: nat, i: nat)
    requires Summed(a, blocks, results, n) && i < |blocks| && blocks[i].0 <= blocks[i].1 <= |a|
    ensures results[i] == if i < n then Sum(a, blocks[i].0, blocks[i].1) else 0
  {
  }

  /** Every position is in some block. */
  lemma {:induction false} InSomeBlock(blocks: seq<(nat, nat)>, n: nat, x: nat, k: nat) returns (i: nat)
    requires Tiles(blocks, n) && k < |blocks| && x < blocks[k].1
    ensures i < |blocks| && blocks[i].0 <= x < blocks[i].1
    decreases k
  {
    i := k;
    if x < blocks[k].0 { i := InSomeBlock(blocks, n, x, k - 1); }
  }

  /** The scans of the threads, the promise they share, and the flag. */
  datatype Search = Search(scans: seq<Scan>, promise: Option<nat>, done: bool)

  /**
   * The next step of thread `t`.  Setting the promise a second time throws, and so does the
   * attempt to store that exception; the thread then ends without raising the flag.
   */
  function SearchStep<T(==)>(a: seq<T>, need: T, s: Search, t: nat): Search
    requires t < |s.scans|
  {
    var c := s.scans[t];
    if c.phase.Compare? && c.pos < |a| && a[c.pos] == need then
      if s.promise.None? then s.(scans := s.scans[t := c.(phase := Store)], promise := Some(c.pos))
      else s.(scans := s.scans[t := c.(phase := Finished(c.hi))])
    else
      var (q, d) := ScanStep(a, need, c, s.done);
      s.(scans := s.scans[t := q], done := d)
  }

  function StartAll(blocks: seq<(nat, nat)>): (scans: seq<Scan>)
    ensures |scans| == |blocks|
    ensures forall i :: 0 <= i < |blocks| ==> scans[i] == Scan(blocks[i].0, blocks[i].1, blocks[i].0, Load)
  {
    if blocks == [] then []
    else
      var b := blocks[|blocks| - 1];
      StartAll(blocks[..|blocks| - 1]) + [Scan(b.0, b.1, b.0, Load)]
  }

  function SearchRun<T(==)>(a: seq<T>, need: T, blocks: seq<(nat, nat)>, schedule: seq<nat>, k: nat): (s: Search)
    requires k <= |schedule|
    ensures |s.scans| == |blocks|
  {
    if k == 0 then Search(StartAll(blocks), None, false)
    else
      var s := SearchRun(a, need, blocks, schedule, k - 1);
      if schedule[k - 1] < |blocks| then SearchStep(a, need, s, schedule[k - 1]) else s
  }

  ghost predicate SearchInv<T>(a: seq<T>, need: T, blocks: seq<(nat, nat)>, s: Search) {
    && |s.scans| == |blocks|
    && (forall i :: 0 <= i < |blocks| ==>
          s.scans[i].lo == blocks[i].0 && s.scans[i].hi == blocks[i].1 && ScanInv(a, need, s.scans[i], s.promise.Some?))
    && (s.promise.Some? ==> s.promise.value < |a| && a[s.promise.value] == need)
    && (s.done ==> s.promise.Some?)
    && (forall i :: 0 <= i < |blocks| && s.scans[i].phase.Store? ==> s.promise.Some?)
    && (forall i :: 0 <= i < |blocks| && Found(s.scans[i]) ==> s.done)
    && (s.promise.Some? && !s.done ==> exists i :: 0 <= i < |blocks| && s.scans[i].phase.Store?)
  }

  lemma {:induction false} EachScanKeeps<T>(a: seq<T>, need: T, blocks: seq<(nat, nat)>, s: Search, t: nat, i: nat)
    requires SearchInv(a, need, blocks, s) && t < |blocks| && i < |blocks|
    ensures var q := SearchStep(a, need, s, t);
            && |q.scans| == |blocks| && (s.promise.Some? ==> q.promise == s.promise)
            && q.scans[i].lo == blocks[i].0 && q.scans[i].hi == blocks[i].1
            && ScanInv(a, need, q.scans[i], q.promise.Some?)
  {
    assert ScanInv(a, need, s.scans[i], s.promise.Some?);
  }

  /** What holds of the promise and the flag. */
  lemma {:induction false} FlagsKeep<T>(a: seq<T>, need: T, blocks: seq<(nat, nat)>, s: Search, t: nat)
    requires SearchInv(a, need, blocks, s) && t < |blocks|
    ensures var q := SearchStep(a, need, s, t);
            && (q.promise.Some? ==> q.promise.value < |a| && a[q.promise.value] == need)
            && (q.done ==> q.promise.Some?)
            && (forall i :: 0 <= i < |blocks| && q.scans[i].phase.Store? ==> q.promise.Some?)
            && (forall i :: 0 <= i < |blocks| && Found(q.scans[i]) ==> q.done)
            && (q.promise.Some? && !q.done ==> exists i :: 0 <= i < |blocks| && q.scans[i].phase.Store?)
  {
    hide ScanInv;
    var q := SearchStep(a, need, s, t);
    if q.promise.Some? && !q.done {
      if s.promise.Some? {
        var i :| 0 <= i < |blocks| && s.scans[i].phase.Store?;
        assert q.scans[i].phase.Store?;
      } else {
        assert q.scans[t].phase.Store?;
      }
    }
  }

  lemma {:induction false} SearchStepKeeps<T>(a: seq<T>, need: T, blocks: seq<(nat, nat)>, s: Search, t: nat)
    requires SearchInv(a, need, blocks, s) && t < |blocks|
    ensures SearchInv(a, need, blocks, SearchStep(a, need, s, t))
  {
    hide ScanInv, ScanStep;
    var q := SearchStep(a, need, s, t);
    FlagsKeep(a, need, blocks, s, t);
    forall i | 0 <= i < |blocks|
      ensures q.scans[i].lo == blocks[i].0 && q.scans[i].hi == blocks[i].1
      ensures ScanInv(a, need, q.scans[i], q.promise.Some?)
    {
      EachScanKeeps(a, need, blocks, s, t, i);
    }
  }

  lemma {:induction false} SearchRunKeeps<T>(a: seq<T>, need: T, blocks: seq<(nat, nat)>, schedule: seq<nat>, k: nat)
    requires k <= |schedule| && Tiles(blocks, |a|)
    ensures SearchInv(a, need, blocks, SearchRun(a, need, blocks, schedule, k))
  {
    hide SearchInv;
    if k == 0 {
      SearchStartInv(a, need, blocks);
    } else {
      SearchRunKeeps(a, need, blocks, schedule, k - 1);
      if schedule[k - 1] < |blocks| {
        SearchStepKeeps(a, need, blocks, SearchRun(a, need, blocks, schedule, k - 1), schedule[k - 1]);
      }
    }
  }

  lemma {:induction false} SearchStartInv<T>(a: seq<T>, need: T, blocks: seq<(nat, nat)>)
    requires Tiles(blocks, |a|)
    ensures SearchInv(a, need, blocks, Search(StartAll(blocks), None, false))
  {
  }

  /**
   * Once all threads of parallel_find have ended, the flag is up if and only if some element
   * matches, and then the promise holds the position of a match.
   */
  lemma {:induction false} SearchFinds<T>(a: seq<T>, need: T, blocks: seq<(nat, nat)>, schedule: seq<nat>)
    requires Tiles(blocks, |a|)
    requires forall i :: 0 <= i < |blocks| ==>
               SearchRun(a, need, blocks, schedule, |schedule|).scans[i].phase.Finished?
    ensures var s := SearchRun(a, need, blocks, schedule, |schedule|);
            && (s.done <==> need in a)
            && (s.done ==> s.promise.Some? && s.promise.value < |a| && a[s.promise.value] == need)
  {
    hide Tiles, SearchInv;
    SearchRunKeeps(a, need, blocks, schedule, |schedule|);
    SearchEnd(a, need, blocks, SearchRun(a, need, blocks, schedule, |schedule|));
  }

  lemma {:induction false} SearchEnd<T>(a: seq<T>, need: T, blocks: seq<(nat, nat)>, s: Search)
    requires Tiles(blocks, |a|) && SearchInv(a, need, blocks, s)
    requires forall i :: 0 <= i < |blocks| ==> s.scans[i].phase.Finished?
    ensures s.done <==> need in a
    ensures s.done ==> s.promise.Some? && s.promise.value < |a| && a[s.promise.value] == need
  {
    if need in a {
      var x :| 0 <= x < |a| && a[x] == need;
      var i := InSomeBlock(blocks, |a|, x, |blocks| - 1);
      assert ScanInv(a, need, s.scans[i], s.promise.Some?);
    }
  }

  /** How many steps the first `n` threads have left at most. */
  function SearchLeft(scans: seq<Scan>, n: nat): nat
    requires n <= |scans|
  {
    if n == 0 then 0 else SearchLeft(scans, n - 1) + ScanLeft(scans[n - 1])
  }

  lemma {:induction false} OneChanges(scans: seq<Scan>, t: nat, q: Scan, n: nat)
    requires t < |scans| && n <= |scans|
    ensures SearchLeft(scans[t := q], n)
         == SearchLeft(scans, n) + if t < n then ScanLeft(q) - ScanLeft(scans[t]) else 0
  {
    if n > 0 { OneChanges(scans, t, q, n - 1); }
  }

  /** A thread that has not ended can always go on, and each of its steps brings the end nearer. */
  lemma {:induction false} SearchStepsEnd<T>(a: seq<T>, need: T, blocks: seq<(nat, nat)>, s: Search, t: nat)
    requires SearchInv(a, need, blocks, s) && t < |blocks|
    ensures var q := SearchStep(a, need, s, t);
            && |q.scans| == |blocks|
            && if s.scans[t].phase.Finished? then q == s
               else SearchLeft(q.scans, |blocks|) < SearchLeft(s.scans, |blocks|)
  {
    var q := SearchStep(a, need, s, t);
    assert ScanInv(a, need, s.scans[t], s.promise.Some?);
    assert q.scans == s.scans[t := q.scans[t]];
    OneChanges(s.scans, t, q.scans[t], |blocks|);
  }

  /** How many of the first `k` steps of a schedule are of threads that have not ended. */
  function Taken<T(==)>(a: seq<T>, need: T, blocks: seq<(nat, nat)>, schedule: seq<nat>, k: nat): nat
    requires k <= |schedule|
  {
    if k == 0 then 0
    else
      var s, t := SearchRun(a, need, blocks, schedule, k - 1), schedule[k - 1];
      Taken(a, need, blocks, schedule, k - 1) + if t < |blocks| && !s.scans[t].phase.Finished? then 1 else 0
  }

  lemma {:induction false} StartLeft(blocks: seq<(nat, nat)>, n: nat, k: nat)
    requires Tiles(blocks, n) && k < |blocks|
    ensures SearchLeft(StartAll(blocks), k + 1) == 2 * blocks[k].1 + 2 * (k + 1)
  {
    var scans := StartAll(blocks);
    if k == 0 { assert SearchLeft(scans, 0) == 0; } else { StartLeft(blocks, n, k - 1); }
  }

  /** So the threads of parallel_find together take at most two steps for each element and two for each thread. */
  lemma {:induction false} SearchEnds<T>(a: seq<T>, need: T, blocks: seq<(nat, nat)>, schedule: seq<nat>, k: nat)
    requires k <= |schedule| && Tiles(blocks, |a|)
    ensures Taken(a, need, blocks, schedule, k) + SearchLeft(SearchRun(a, need, blocks, schedule, k).scans, |blocks|)
         <= 2 * |a| + 2 * |blocks|
  {
    hide SearchInv, SearchStep, StartAll, SearchLeft;
    if k == 0 {
      StartLeft(blocks, |a|, |blocks| - 1);
    } else {
      SearchEnds(a, need, blocks, schedule, k - 1);
      SearchRunKeeps(a, need, blocks, schedule, k - 1);
      var s, t := SearchRun(a, need, blocks, schedule, k - 1), schedule[k - 1];
      if t < |blocks| { SearchStepsEnd(a, need, blocks, s, t); }
    }
  }
}
