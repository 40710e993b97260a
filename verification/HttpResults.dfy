/** What the requests of the client in file_server/httplib.h return, and when they keep the connection. */
module HttpResults {
  import opened HttpClient
  import opened Options

  /** The turn `k` of a schedule takes place. */
  predicate Happens(n: nat, schedule: Schedule, k: nat)
    requires k < |schedule|
  {
    var o := Run(n, schedule, k);
    var (t, a) := schedule[k];
    o.Next? && t < |o.s.threads| && Exec(o.s, t, a).Next?
  }

  /** The thread is not in send before turn `k`. */
  predicate Outside(n: nat, schedule: Schedule, k: nat, t: nat)
    requires k <= |schedule|
  {
    var o := Run(n, schedule, k);
    o.Next? && t < |o.s.threads| && o.s.threads[t] == []
  }

  /** What thread `t` has done since it last called send, those of its redirected requests included. */
  function Since(n: nat, schedule: Schedule, k: nat, t: nat): seq<Action>
    requires k <= |schedule|
  {
    if k == 0 then []
    else
      var before, (u, a) := Since(n, schedule, k - 1, t), schedule[k - 1];
      if u != t || a.Stop? || !Happens(n, schedule, k - 1) then before
      else if Outside(n, schedule, k - 1, t) then [a]
      else before + [a]
  }

  /**
   * What came of a request, by its own account: how many redirects it may still follow, and whether
   * what it is waiting for has arrived.  A redirect elsewhere is as good as the request sent there.
   */
  function Verdict(acts: seq<Action>): (nat, bool) {
    if acts == [] then (0, false)
    else
      var (left, ok) := Verdict(acts[..|acts| - 1]);
      match acts[|acts| - 1]
      case Send(redirects, _) => (redirects, false)
      case Respond(arrived, _, _) => (left, arrived)
      case Follow(sameHost, elsewhere) =>
        if left == 0 then (0, false) else if sameHost then (left - 1, false) else (left, elsewhere)
      case _ => (left, ok)
  }

  /** The newest call of a thread agrees with its account. */
  ghost predicate Agrees(stack: seq<Frame>, acts: seq<Action>) {
    stack == [] ||
    var f, (left, ok) := Top(stack), Verdict(acts);
    if f.pc.Exit? || f.pc.Leave? then f.ret == ok
    else f.redirects == left && (if f.pc.Closing? || f.pc.Redirecting? then f.ret && ok else !f.ret && !ok)
  }

  lemma {:induction false} VerdictNext(acts: seq<Action>, a: Action)
    ensures Verdict(acts + [a]) ==
            var (left, ok) := Verdict(acts);
            match a
            case Send(redirects, _) => (redirects, false)
            case Respond(arrived, _, _) => (left, arrived)
            case Follow(sameHost, elsewhere) =>
              if left == 0 then (0, false) else if sameHost then (left - 1, false) else (left, elsewhere)
            case _ => (left, ok)
  {
    assert (acts + [a])[..|acts|] == acts;
  }

  lemma {:induction false} AgreesFirst(s: State, t: nat, a: Action)
    requires t < |s.threads| && s.threads[t] == [] && !a.Stop? && Exec(s, t, a).Next?
    ensures Agrees(Exec(s, t, a).s.threads[t], [a]) && Exec(s, t, a).s.returned == s.returned
  {
    assert [a][..0] == [];
    assert Verdict([]) == (0, false);
  }

  /** A step inside a request. */
  lemma {:induction false} AgreesWithin(s: State, t: nat, a: Action, acts: seq<Action>)
    requires t < |s.threads| && s.threads[t] != [] && !a.Stop? && !a.Unlock? && Exec(s, t, a).Next?
    requires Agrees(s.threads[t], acts) && !Top(s.threads[t]).pc.Waiting?
    ensures var q := Exec(s, t, a).s; |q.threads| == |s.threads| && Agrees(q.threads[t], acts + [a])
  {
    hide Verdict;
    VerdictNext(acts, a);
  }

  /** Its last step. */
  lemma {:induction false} AgreesUnlock(s: State, t: nat, acts: seq<Action>)
    requires t < |s.threads| && s.threads[t] != [] && Exec(s, t, Unlock).Next?
    requires Agrees(s.threads[t], acts)
    ensures var q := Exec(s, t, Unlock).s; |q.threads| == |s.threads| && Agrees(q.threads[t], acts + [Unlock])
  {
    hide Verdict;
    VerdictNext(acts, Unlock);
  }

  /** Every step of a request keeps the account. */
  lemma {:induction false} AgreesNext(s: State, t: nat, a: Action, acts: seq<Action>)
    requires t < |s.threads| && s.threads[t] != [] && !a.Stop? && Exec(s, t, a).Next?
    requires Agrees(s.threads[t], acts) && !Top(s.threads[t]).pc.Waiting?
    ensures var q := Exec(s, t, a).s; |q.threads| == |s.threads| && Agrees(q.threads[t], acts + [a])
  {
    hide Exec, Agrees, Verdict;
    if a.Unlock? { AgreesUnlock(s, t, acts); } else { AgreesWithin(s, t, a, acts); }
  }

  /** What a step returns to a caller. */
  lemma {:induction false} ReturnsNext(s: State, t: nat, a: Action, acts: seq<Action>)
    requires t < |s.threads| && Exec(s, t, a).Next? && Agrees(s.threads[t], acts)
    ensures Exec(s, t, a).s.returned == s.returned +
              if a.Unlock? && |s.threads[t]| == 1 then [(t, Verdict(acts).1)] else []
  {
  }

  lemma {:induction false} RunNext(n: nat, schedule: Schedule, k: nat)
    requires k < |schedule|
    ensures Run(n, schedule, k).Next? && Inv(Run(n, schedule, k).s) && |Run(n, schedule, k).s.threads| == n
    ensures Run(n, schedule, k + 1).Next? && Inv(Run(n, schedule, k + 1).s) && |Run(n, schedule, k + 1).s.threads| == n
    ensures var s := Run(n, schedule, k).s;
            Run(n, schedule, k + 1).s ==
            if Happens(n, schedule, k) then Exec(s, schedule[k].0, schedule[k].1).s else s
  {
    hide Inv, Exec;
    NeverFaults(n, schedule, k);
    NeverFaults(n, schedule, k + 1);
    if schedule[k].0 < n { StepKeeps(Run(n, schedule, k).s, schedule[k].0, schedule[k].1); }
  }

  lemma {:induction false} OthersUntouched(s: State, t: nat, a: Action, u: nat)
    requires t < |s.threads| && u < |s.threads| && Exec(s, t, a).Next? && (t != u || a.Stop?)
    ensures |Exec(s, t, a).s.threads| == |s.threads| && Exec(s, t, a).s.threads[u] == s.threads[u]
  {
  }

  lemma {:induction false} NotWaiting(s: State, t: nat, a: Action)
    requires t < |s.threads| && s.threads[t] != [] && !a.Stop? && Exec(s, t, a).Next?
    ensures !Top(s.threads[t]).pc.Waiting?
  {
  }

  /** In every run, each thread's newest call agrees with what the thread has done. */
  lemma {:induction false} RunAgrees(n: nat, schedule: Schedule, k: nat, t: nat)
    requires k <= |schedule| && t < n
    ensures Run(n, schedule, k).Next? && |Run(n, schedule, k).s.threads| == n
    ensures Agrees(Run(n, schedule, k).s.threads[t], Since(n, schedule, k, t))
  {
    hide Inv, Exec, Agrees, Verdict;
    if k == 0 {
      NoCalls(n, t);
    } else {
      RunNext(n, schedule, k - 1);
      RunAgrees(n, schedule, k - 1, t);
      var s := Run(n, schedule, k - 1).s;
      var (u, a) := schedule[k - 1];
      if Happens(n, schedule, k - 1) {
        if u != t || a.Stop? {
          OthersUntouched(s, u, a, t);
        } else if s.threads[t] == [] {
          AgreesFirst(s, t, a);
        } else {
          NotWaiting(s, t, a);
          AgreesNext(s, t, a, Since(n, schedule, k - 1, t));
        }
      }
    }
  }

  lemma {:induction false} NoCalls(n: nat, t: nat)
    requires t < n
    ensures Init(n).threads[t] == [] && Agrees([], [])
  {
  }

  /**
   * What send returns: in every interleaving, the last step of a call returns true if and only if
   * the response to the last request sent on its behalf arrived.
   */
  lemma {:induction false} ReturnsVerdict(n: nat, schedule: Schedule, k: nat)
    requires k < |schedule| && Happens(n, schedule, k)
    ensures Run(n, schedule, k).Next? && Run(n, schedule, k + 1).Next?
    ensures var s, q := Run(n, schedule, k).s, Run(n, schedule, k + 1).s; var (t, a) := schedule[k];
            && t < |s.threads|
            && q.returned == s.returned +
                 if a.Unlock? && |s.threads[t]| == 1 then [(t, Verdict(Since(n, schedule, k, t)).1)] else []
  {
    hide Inv, Exec, Agrees, Verdict;
    RunNext(n, schedule, k);
    var (t, a) := schedule[k];
    RunAgrees(n, schedule, k, t);
    ReturnsNext(Run(n, schedule, k).s, t, a, Since(n, schedule, k, t));
  }

  /**
   * When a request ends, its connection is closed if and only if it is closed already, keeping it
   * was not asked for, its response did not arrive, or stop came after the last preparation.
   */
  lemma {:induction false} FailureCloses(n: nat, schedule: Schedule, k: nat)
    requires k < |schedule| && Happens(n, schedule, k) && schedule[k].1.Finish?
    ensures Run(n, schedule, k).Next? && Run(n, schedule, k + 1).Next?
    ensures var s, q, t := Run(n, schedule, k).s, Run(n, schedule, k + 1).s, schedule[k].0;
            && t < |s.threads| && s.threads[t] != []
            && (q.sock.None? <==>
                  || s.sock.None? || Top(s.threads[t]).closeConnection || s.lastStop > s.lastPrepare
                  || !Verdict(Since(n, schedule, k, t)).1)
  {
    hide Inv, Agrees, Verdict;
    RunNext(n, schedule, k);
    var s, t := Run(n, schedule, k).s, schedule[k].0;
    RunAgrees(n, schedule, k, t);
    FinishIsExit(s, t);
    EndOfRequest(s, t);
    ExitAgrees(s.threads[t], Since(n, schedule, k, t));
  }

  lemma {:induction false} FinishIsExit(s: State, t: nat)
    requires t < |s.threads| && Exec(s, t, Finish).Next?
    ensures s.threads[t] != [] && Top(s.threads[t]).pc.Exit?
  {
  }

  lemma {:induction false} ExitAgrees(stack: seq<Frame>, acts: seq<Action>)
    requires stack != [] && Agrees(stack, acts) && Top(stack).pc.Exit?
    ensures Top(stack).ret == Verdict(acts).1
  {
  }

  // ---------------------------------------------------------------- what a good result means

  /** How many redirects have been followed on the same client. */
  function Followed(acts: seq<Action>): nat {
    if acts == [] then 0
    else
      var last := acts[|acts| - 1];
      Followed(acts[..|acts| - 1]) + if last.Follow? && last.sameHost then 1 else 0
  }

  /** Some response did not arrive. */
  ghost predicate Broken(acts: seq<Action>) {
    exists i :: 0 <= i < |acts| && acts[i].Respond? && !acts[i].ok
  }

  /** Every response so far has arrived, and every redirect was allowed. */
  ghost predicate Whole(acts: seq<Action>) {
    && acts != [] && acts[0].Send? && !Broken(acts)
    && Followed(acts) + Verdict(acts).0 == acts[0].redirects
  }

  /** If something was lost, the account is bad, and nothing more is tried. */
  ghost predicate GivenUp(stack: seq<Frame>, acts: seq<Action>) {
    !Verdict(acts).1 && (stack == [] || Top(stack).pc.Exit? || Top(stack).pc.Leave?)
  }

  lemma {:induction false} FollowedNext(acts: seq<Action>, a: Action)
    ensures Followed(acts + [a]) == Followed(acts) + if a.Follow? && a.sameHost then 1 else 0
    ensures Broken(acts + [a]) <==> Broken(acts) || (a.Respond? && !a.ok)
  {
    assert (acts + [a])[..|acts|] == acts;
    if Broken(acts) {
      var i :| 0 <= i < |acts| && acts[i].Respond? && !acts[i].ok;
      assert (acts + [a])[i] == acts[i];
    }
    if a.Respond? && !a.ok { assert (acts + [a])[|acts|] == a; }
  }

  lemma {:induction false} WholeNext(s: State, t: nat, a: Action, acts: seq<Action>)
    requires t < |s.threads| && s.threads[t] != [] && !a.Stop? && Exec(s, t, a).Next?
    requires Agrees(s.threads[t], acts) && acts != [] && (Whole(acts) || GivenUp(s.threads[t], acts))
    ensures var q := Exec(s, t, a).s;
            |q.threads| == |s.threads| && (Whole(acts + [a]) || GivenUp(q.threads[t], acts + [a]))
  {
    hide Followed, Broken;
    VerdictNext(acts, a);
    FollowedNext(acts, a);
    assert (acts + [a])[0] == acts[0];
  }

  lemma {:induction false} WholeFirst(s: State, t: nat, a: Action)
    requires t < |s.threads| && s.threads[t] == [] && !a.Stop? && Exec(s, t, a).Next?
    ensures Whole([a])
  {
    assert [a][..0] == [] && Verdict([]) == (0, false) && Followed([]) == 0;
  }

  lemma {:induction false} RunWhole(n: nat, schedule: Schedule, k: nat, t: nat)
    requires k <= |schedule| && t < n
    ensures Run(n, schedule, k).Next? && |Run(n, schedule, k).s.threads| == n
    ensures var acts, stack := Since(n, schedule, k, t), Run(n, schedule, k).s.threads[t];
            if acts == [] then stack == [] else Whole(acts) || GivenUp(stack, acts)
  {
    hide Inv, Exec, Agrees, Verdict, Whole, GivenUp;
    if k == 0 {
      NoCalls(n, t);
    } else {
      RunNext(n, schedule, k - 1);
      RunAgrees(n, schedule, k - 1, t);
      RunWhole(n, schedule, k - 1, t);
      var s := Run(n, schedule, k - 1).s;
      var (u, a) := schedule[k - 1];
      if Happens(n, schedule, k - 1) {
        if u != t || a.Stop? {
          OthersUntouched(s, u, a, t);
        } else if s.threads[t] == [] {
          WholeFirst(s, t, a);
        } else {
          WholeNext(s, t, a, Since(n, schedule, k - 1, t));
        }
      }
    }
  }

  /**
   * A good account, and so a good result, means that every response has arrived, that of each
   * redirected request included, and that no more redirects were followed than allowed.
   */
  lemma {:induction false} TrueMeansArrived(n: nat, schedule: Schedule, k: nat, t: nat)
    requires k <= |schedule| && t < n && Verdict(Since(n, schedule, k, t)).1
    ensures var acts := Since(n, schedule, k, t);
            && acts != [] && acts[0].Send? && Followed(acts) <= acts[0].redirects
            && forall i :: 0 <= i < |acts| && acts[i].Respond? ==> acts[i].ok
  {
    RunWhole(n, schedule, k, t);
  }

  // ---------------------------------------------------------------- stop

  /** No request prepares the socket in the turns from `i` to `j`. */
  ghost predicate NoPrepare(n: nat, schedule: Schedule, i: nat, j: nat) {
    forall k :: i <= k < j && k < |schedule| && schedule[k].1.Prepare? ==> !Happens(n, schedule, k)
  }

  lemma {:induction false} FlagStays(s: State, t: nat, a: Action)
    requires t < |s.threads| && Exec(s, t, a).Next? && s.flag && !a.Prepare?
    ensures Exec(s, t, a).s.flag
  {
  }

  lemma {:induction false} StopFlags(s: State, t: nat)
    requires t < |s.threads| && s.inFlight > 0
    ensures Exec(s, t, Stop).Next? && Exec(s, t, Stop).s.flag
  {
  }

  lemma {:induction false} FlaggedUntil(n: nat, schedule: Schedule, i: nat, j: nat)
    requires i < j <= |schedule| && Happens(n, schedule, i) && schedule[i].1.Stop?
    requires Run(n, schedule, i).s.inFlight > 0 && NoPrepare(n, schedule, i, j)
    ensures Run(n, schedule, j).Next? && Run(n, schedule, j).s.flag
  {
    hide Inv, Exec;
    RunNext(n, schedule, j - 1);
    var s := Run(n, schedule, j - 1).s;
    if j - 1 == i {
      StopFlags(s, schedule[i].0);
    } else {
      FlaggedUntil(n, schedule, i, j - 1);
      if Happens(n, schedule, j - 1) { FlagStays(s, schedule[j - 1].0, schedule[j - 1].1); }
    }
  }

  lemma {:induction false} FlagCloses(s: State, t: nat)
    requires t < |s.threads| && s.flag && Exec(s, t, Finish).Next?
    ensures Exec(s, t, Finish).s.sock.None?
  {
  }

  /**
   * A stop that finds a request in flight closes the connection when a request ends, unless one
   * has prepared the socket in the meantime.
   */
  lemma {:induction false} StopEndsConnection(n: nat, schedule: Schedule, i: nat, j: nat)
    requires i < j < |schedule| && Happens(n, schedule, i) && schedule[i].1.Stop?
    requires Run(n, schedule, i).s.inFlight > 0 && NoPrepare(n, schedule, i, j)
    requires Happens(n, schedule, j) && schedule[j].1.Finish?
    ensures Run(n, schedule, j + 1).Next? && Run(n, schedule, j + 1).s.sock.None?
  {
    hide Inv, Exec;
    FlaggedUntil(n, schedule, i, j);
    RunNext(n, schedule, j);
    FlagCloses(Run(n, schedule, j).s, schedule[j].0);
  }

  /** And one that finds none closes it at once. */
  lemma {:induction false} IdleStopCloses(n: nat, schedule: Schedule, i: nat)
    requires i < |schedule| && Happens(n, schedule, i) && schedule[i].1.Stop?
    requires forall t :: 0 <= t < |Run(n, schedule, i).s.threads| ==> Run(n, schedule, i).s.threads[t] == []
    ensures Run(n, schedule, i + 1).Next? && Run(n, schedule, i + 1).s.sock.None?
  {
    RunNext(n, schedule, i);
  }

  /** A request on an open connection that is alive uses that connection. */
  lemma {:induction false} ConnectionReused(s: State, t: nat, connected: bool)
    requires Inv(s) && t < |s.threads| && s.threads[t] != [] && Top(s.threads[t]).pc.Enter? && s.sock.Some?
    ensures var o := Exec(s, t, Prepare(true, connected));
            && o.Next? && o.s.sock == s.sock && o.s.created == s.created
            && var r := Exec(o.s, t, OpenStream);
               r.Next? && r.s.threads[t] != [] && Some(Top(r.s.threads[t]).stream) == s.sock
  {
    hide Nested;
    PrepareKeeps(s, t, true, connected);
  }

  /** A connection that is no longer alive is not used again. */
  lemma {:induction false} DeadReplaced(s: State, t: nat, connected: bool)
    requires Inv(s) && t < |s.threads| && s.threads[t] != [] && Top(s.threads[t]).pc.Enter?
    ensures var o := Exec(s, t, Prepare(false, connected));
            && o.Next? && (o.s.sock.None? || o.s.sock != s.sock) && (o.s.sock.Some? <==> connected)
  {
    hide Nested;
    PrepareKeeps(s, t, false, connected);
  }

  // ---------------------------------------------------------------- "Connection: close"

  /** The response asked to close the connection, and the request has not ended. */
  ghost predicate MustClose(s: State, t: nat) {
    && t < |s.threads| && s.threads[t] != []
    && var pc := Top(s.threads[t]).pc; pc == Closing(false) || (pc.Exit? && s.sock.None?)
  }

  lemma {:induction false} CloseNext(s: State, t: nat, a: Action)
    requires Inv(s) && MustClose(s, t) && Exec(s, t, a).Next? && !a.Finish?
    ensures MustClose(Exec(s, t, a).s, t)
  {
  }

  lemma {:induction false} CloseWaits(s: State, t: nat, u: nat, a: Action)
    requires Inv(s) && MustClose(s, t) && u < |s.threads| && u != t && Exec(s, u, a).Next?
    ensures MustClose(Exec(s, u, a).s, t)
  {
    NoForeignClose(s, u, a, t);
    OthersUntouched(s, u, a, t);
  }

  lemma {:induction false} CloseAsked(s: State, t: nat)
    requires t < |s.threads| && Exec(s, t, Respond(true, true, false)).Next?
    ensures MustClose(Exec(s, t, Respond(true, true, false)).s, t)
  {
  }

  lemma {:induction false} CloseFinish(s: State, t: nat)
    requires MustClose(s, t) && Exec(s, t, Finish).Next?
    ensures Exec(s, t, Finish).s.sock.None?
  {
  }

  lemma {:induction false} MustCloseUntil(n: nat, schedule: Schedule, i: nat, j: nat, t: nat)
    requires i < j <= |schedule| && Happens(n, schedule, i) && schedule[i] == (t, Respond(true, true, false))
    requires forall k :: i < k < j && schedule[k] == (t, Finish) ==> !Happens(n, schedule, k)
    ensures Run(n, schedule, j).Next? && MustClose(Run(n, schedule, j).s, t)
  {
    hide Inv, Exec, MustClose;
    RunNext(n, schedule, j - 1);
    var s := Run(n, schedule, j - 1).s;
    var (u, a) := schedule[j - 1];
    if j - 1 == i {
      CloseAsked(s, t);
    } else {
      MustCloseUntil(n, schedule, i, j - 1, t);
      if Happens(n, schedule, j - 1) {
        if u == t { CloseNext(s, t, a); } else { CloseWaits(s, t, u, a); }
      }
    }
  }

  /** A response that asks to close the connection, and is no redirect, has it closed when its request ends. */
  lemma {:induction false} CloseIsHonoured(n: nat, schedule: Schedule, i: nat, j: nat, t: nat)
    requires i < j < |schedule| && Happens(n, schedule, i) && schedule[i] == (t, Respond(true, true, false))
    requires Happens(n, schedule, j) && schedule[j] == (t, Finish)
    requires forall k :: i < k < j && schedule[k] == (t, Finish) ==> !Happens(n, schedule, k)
    ensures Run(n, schedule, j + 1).Next? && Run(n, schedule, j + 1).s.sock.None?
  {
    hide Inv, Exec, MustClose;
    MustCloseUntil(n, schedule, i, j, t);
    RunNext(n, schedule, j);
    CloseFinish(Run(n, schedule, j).s, t);
  }
}
