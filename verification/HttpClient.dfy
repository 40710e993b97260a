/**
 * The socket protocol of ClientImpl in file_server/httplib.h: any number of threads call send
 * and stop on one client.  One step is a critical section of socket_mutex_, or what a thread
 * does between two of them.  Every assertion of the source is checked; a failed one is a Fault.
 */
module HttpClient {
  import opened Options

  /** How far a call of send_ has come. */
  datatype Pc =
    | Enter                     // holds request_mutex_, has not yet taken socket_mutex_
    | Open                      // counted as in flight, about to open the stream on the socket
    | Working                   // in process_request
    | Closing(redirect: bool)   // "Connection: close" was received
    | Redirecting               // in redirect
    | Waiting                   // in the nested send that follows a redirect on this client
    | Exit                      // about to run the scope_exit handler
    | Leave                     // about to release request_mutex_

  /**
   * One call of send_: the redirects it may still follow, its result, and its bookkeeping for
   * the statements below: the socket its stream uses, when it began, and whether it has nested a request.
   */
  datatype Frame =
    Frame(pc: Pc, redirects: nat, closeConnection: bool, ret: bool, stream: nat, begun: nat, nested: bool)

  /**
   * The fields of ClientImpl and the calls of every thread.  A socket is named by the order of its
   * creation.  `now`, `lastPrepare` and `lastStop` are history: a clock, and when it was that a
   * request last prepared the socket and that stop last found one in flight; `returned` is what the
   * calls of send have returned to their callers, in order.
   */
  datatype State = State(
    owner: Option<nat>, depth: nat,
    flag: bool, sock: Option<nat>, inFlight: int, from: Option<nat>,
    created: nat, now: nat, lastPrepare: nat, lastStop: nat,
    threads: seq<seq<Frame>>, returned: seq<(nat, bool)>)

  /** What a thread does next, with what the network and the caller contribute. */
  datatype Action =
    | Send(redirects: nat, closeConnection: bool)
    | Stop
    | Prepare(alive: bool, connected: bool)
    | OpenStream
    | Transfer
    | Respond(ok: bool, close: bool, redirect: bool)
    | CloseNow
    | Follow(sameHost: bool, elsewhere: bool)
    | Finish
    | Unlock

  datatype Outcome = Next(s: State) | Disabled | Fault

  /** The assertion of close_socket and shutdown_ssl. */
  predicate MayClose(s: State, t: nat) {
    s.inFlight == 0 || s.from == Some(t)
  }

  function Top(stack: seq<Frame>): Frame
    requires stack != []
  {
    stack[|stack| - 1]
  }

  function WithTop(stack: seq<Frame>, f: Frame): seq<Frame>
    requires stack != []
  {
    stack[|stack| - 1 := f]
  }

  function SetTop(s: State, t: nat, f: Frame): State
    requires t < |s.threads| && s.threads[t] != []
  {
    s.(threads := s.threads[t := WithTop(s.threads[t], f)])
  }

  /** send: the recursive lock on request_mutex_. */
  function OnSend(s: State, t: nat, redirects: nat, closeConnection: bool): Outcome
    requires t < |s.threads|
  {
    if s.owner.Some? && s.owner != Some(t) then Disabled
    else
      var f := Frame(Enter, redirects, closeConnection, false, 0, 0, false);
      Next(s.(owner := Some(t), depth := s.depth + 1, threads := s.threads[t := s.threads[t] + [f]]))
  }

  function OnStop(s: State, t: nat): Outcome {
    if s.inFlight > 0 then Next(s.(flag := true, now := s.now + 1, lastStop := s.now + 1))
    else if !MayClose(s, t) then Fault
    else Next(s.(sock := None))
  }

  /** The first critical section of send_. */
  function OnPrepare(s: State, t: nat, alive: bool, connected: bool): Outcome
    requires t < |s.threads| && s.threads[t] != []
  {
    var f := Top(s.threads[t]);
    var reuse := s.sock.Some? && alive;
    var q := s.(flag := false, now := s.now + 1, lastPrepare := s.now + 1);
    if s.sock.Some? && !alive && !MayClose(s, t) then Fault
    else if !reuse && !connected then Next(SetTop(q.(sock := None), t, f.(pc := Leave)))
    else if s.inFlight > 1 && s.from != Some(t) then Fault
    else
      var r := if reuse then q else q.(sock := Some(s.created), created := s.created + 1);
      Next(SetTop(r.(inFlight := s.inFlight + 1, from := Some(t)), t, f.(pc := Open, begun := s.now + 1)))
  }

  /** The scope_exit handler. */
  function OnFinish(s: State, t: nat): Outcome
    requires t < |s.threads| && s.threads[t] != []
  {
    var f := Top(s.threads[t]);
    var n := s.inFlight - 1;
    var q := s.(inFlight := n, from := if n <= 0 then None else s.from);
    if n < 0 then Fault
    else if !(s.flag || f.closeConnection || !f.ret) then Next(SetTop(q, t, f.(pc := Leave)))
    else if !MayClose(q, t) then Fault
    else Next(SetTop(q.(sock := None), t, f.(pc := Leave)))
  }

  /** redirect: on the same client a nested send with one redirect less. */
  function OnFollow(s: State, t: nat, sameHost: bool, elsewhere: bool): Outcome
    requires t < |s.threads| && s.threads[t] != []
  {
    var f := Top(s.threads[t]);
    if f.redirects == 0 then Next(SetTop(s, t, f.(pc := Exit, ret := false)))
    else if !sameHost then Next(SetTop(s, t, f.(pc := Exit, ret := elsewhere)))
    else OnSend(SetTop(s, t, f.(pc := Waiting, nested := true)), t, f.redirects - 1, f.closeConnection)
  }

  /** The end of send: its caller is the user, or the request that was redirected. */
  function OnUnlock(s: State, t: nat): Outcome
    requires t < |s.threads| && s.threads[t] != []
  {
    if s.owner != Some(t) || s.depth == 0 then Fault
    else
      var rest := s.threads[t][..|s.threads[t]| - 1];
      var ret := Top(s.threads[t]).ret;
      var stack := if rest == [] then [] else WithTop(rest, Top(rest).(pc := Exit, ret := ret));
      Next(s.(owner := if s.depth == 1 then None else s.owner, depth := s.depth - 1, threads := s.threads[t := stack],
              returned := if rest == [] then s.returned + [(t, ret)] else s.returned))
  }

  /** Thread `t` does `a`, if that is what it can do now. */
  function Exec(s: State, t: nat, a: Action): Outcome
    requires t < |s.threads|
  {
    if a.Stop? then OnStop(s, t)
    else if s.threads[t] == [] then if a.Send? then OnSend(s, t, a.redirects, a.closeConnection) else Disabled
    else
      var f := Top(s.threads[t]);
      match (f.pc, a)
      case (Enter, Prepare(alive, connected)) => OnPrepare(s, t, alive, connected)
      case (Open, OpenStream) =>
        if s.sock.None? then Fault else Next(SetTop(s, t, f.(pc := Working, stream := s.sock.value)))
      case (Working, Transfer) => if s.sock != Some(f.stream) then Fault else Next(s)
      case (Working, Respond(ok, close, redirect)) =>
        if !ok then Next(SetTop(s, t, f.(pc := Exit, ret := false)))
        else if close then Next(SetTop(s, t, f.(pc := Closing(redirect), ret := true)))
        else Next(SetTop(s, t, f.(pc := if redirect then Redirecting else Exit, ret := true)))
      case (Closing(redirect), CloseNow) =>
        if !MayClose(s, t) then Fault
        else Next(SetTop(s.(sock := None), t, f.(pc := if redirect then Redirecting else Exit)))
      case (Redirecting, Follow(sameHost, elsewhere)) => OnFollow(s, t, sameHost, elsewhere)
      case (Exit, Finish) => OnFinish(s, t)
      case (Leave, Unlock) => OnUnlock(s, t)
      case _ => Disabled
  }

  function Init(n: nat): State {
    State(None, 0, false, None, 0, None, 0, 0, 0, 0, seq(n, _ => []), [])
  }

  type Schedule = seq<(nat, Action)>

  /** The first `k` turns of a schedule; a turn that its thread cannot take changes nothing. */
  function Run(n: nat, schedule: Schedule, k: nat): Outcome
    requires k <= |schedule|
  {
    if k == 0 then Next(Init(n))
    else
      var o := Run(n, schedule, k - 1);
      var (t, a) := schedule[k - 1];
      if !o.Next? || t >= |o.s.threads| || Exec(o.s, t, a).Disabled? then o else Exec(o.s, t, a)
  }

  // ---------------------------------------------------------------- what every step keeps

  /** Counted as in flight. */
  predicate Counted(pc: Pc) {
    !pc.Enter? && !pc.Leave?
  }

  /** Only the newest call of a thread is not waiting for a nested one; each has one redirect less than its caller. */
  ghost predicate Nested(stack: seq<Frame>) {
    && (forall k :: 0 <= k < |stack| ==> (stack[k].pc.Waiting? <==> k < |stack| - 1))
    && (forall k :: 0 <= k < |stack| - 1 ==> stack[k].nested)
    && (forall k :: 0 < k < |stack| ==> stack[k].redirects + 1 == stack[k - 1].redirects)
  }

  /** What holds of the fields while a thread is in `depth` calls of send_, the newest of which is `f`. */
  ghost predicate Fields(s: State, depth: nat, f: Frame) {
    && s.depth == depth
    && s.inFlight == (if Counted(f.pc) then depth else depth - 1)
    && (f.pc.Open? ==> s.sock.Some?)
    && (f.pc.Working? ==> s.sock == Some(f.stream))
    && (Counted(f.pc) && !f.nested ==> f.begun == s.lastPrepare)
  }

  ghost predicate Busy(s: State, stack: seq<Frame>) {
    stack != [] && Nested(stack) && Fields(s, |stack|, Top(stack))
  }

  /** What holds of the fields at any time. */
  ghost predicate History(s: State) {
    && s.from == (if s.inFlight > 0 then s.owner else None)
    && s.flag == (s.lastStop > s.lastPrepare)
    && (s.flag && s.inFlight == 0 ==> s.sock.None?)
    && s.lastPrepare <= s.now && s.lastStop <= s.now
    && (s.sock.Some? ==> s.sock.value < s.created)
  }

  ghost predicate Inv(s: State) {
    && (forall u :: 0 <= u < |s.threads| && s.owner != Some(u) ==> s.threads[u] == [])
    && (match s.owner
        case None => s.depth == 0 && s.inFlight == 0
        case Some(t) => t < |s.threads| && Busy(s, s.threads[t]))
    && History(s)
  }

  lemma InitInv(n: nat)
    ensures Inv(Init(n))
  {
  }

  /** A step that changes the newest call of `t` and some of the fields. */
  lemma TopKeeps(s: State, q: State, t: nat, f: Frame)
    requires Inv(s) && t < |s.threads| && s.threads[t] != []
    requires q.threads == s.threads && q.owner == s.owner && History(q)
    requires !f.pc.Waiting? && f.redirects == Top(s.threads[t]).redirects && Fields(q, |s.threads[t]|, f)
    ensures Inv(SetTop(q, t, f))
  {
    var stack := s.threads[t];
    assert Nested(WithTop(stack, f));
  }

  lemma SendKeeps(s: State, t: nat, redirects: nat, closeConnection: bool)
    requires Inv(s) && t < |s.threads| && s.threads[t] == []
    ensures var o := OnSend(s, t, redirects, closeConnection);
            o.Disabled? || (o.Next? && Inv(o.s) && |o.s.threads| == |s.threads|)
  {
  }

  lemma StopKeeps(s: State, t: nat)
    requires Inv(s) && t < |s.threads|
    ensures var o := OnStop(s, t); o.Next? && Inv(o.s) && |o.s.threads| == |s.threads|
  {
  }

  lemma FollowKeeps(s: State, t: nat, sameHost: bool, elsewhere: bool)
    requires Inv(s) && t < |s.threads| && s.threads[t] != [] && Top(s.threads[t]).pc.Redirecting?
    ensures var o := OnFollow(s, t, sameHost, elsewhere); o.Next? && Inv(o.s) && |o.s.threads| == |s.threads|
  {
    var f := Top(s.threads[t]);
    if f.redirects == 0 || !sameHost {
      TopKeeps(s, s, t, f.(pc := Exit, ret := f.redirects != 0 && elsewhere));
    } else {
      var o := OnFollow(s, t, sameHost, elsewhere);
      var inner := Frame(Enter, f.redirects - 1, f.closeConnection, false, 0, 0, false);
      var outer := f.(pc := Waiting, nested := true);
      assert o.s.threads[t] == WithTop(s.threads[t], outer) + [inner];
      NestedPush(s.threads[t], outer, inner);
    }
  }

  lemma NestedPush(stack: seq<Frame>, outer: Frame, inner: Frame)
    requires stack != [] && Nested(stack) && outer.redirects == Top(stack).redirects
    requires outer.pc.Waiting? && outer.nested && !inner.pc.Waiting? && inner.redirects + 1 == outer.redirects
    ensures Nested(WithTop(stack, outer) + [inner])
  {
  }

  lemma NestedPop(stack: seq<Frame>, ret: bool)
    requires |stack| > 1 && Nested(stack)
    ensures var rest := stack[..|stack| - 1];
            Top(rest).nested && Nested(WithTop(rest, Top(rest).(pc := Exit, ret := ret)))
  {
  }

  lemma UnlockKeeps(s: State, t: nat)
    requires Inv(s) && t < |s.threads| && s.threads[t] != [] && Top(s.threads[t]).pc.Leave?
    ensures var o := OnUnlock(s, t); o.Next? && Inv(o.s) && |o.s.threads| == |s.threads|
  {
    hide Nested;
    if |s.threads[t]| > 1 { NestedPop(s.threads[t], Top(s.threads[t]).ret); }
  }

  lemma PrepareKeeps(s: State, t: nat, alive: bool, connected: bool)
    requires Inv(s) && t < |s.threads| && s.threads[t] != [] && Top(s.threads[t]).pc.Enter?
    ensures var o := OnPrepare(s, t, alive, connected); o.Next? && Inv(o.s) && |o.s.threads| == |s.threads|
  {
    hide Nested;
    var o := OnPrepare(s, t, alive, connected);
    var f := Top(s.threads[t]);
    var q := o.s.(threads := s.threads);
    if !(s.sock.Some? && alive) && !connected {
      TopKeeps(s, q, t, f.(pc := Leave));
    } else {
      TopKeeps(s, q, t, f.(pc := Open, begun := s.now + 1));
    }
  }

  lemma FinishKeeps(s: State, t: nat)
    requires Inv(s) && t < |s.threads| && s.threads[t] != [] && Top(s.threads[t]).pc.Exit?
    ensures var o := OnFinish(s, t); o.Next? && Inv(o.s) && |o.s.threads| == |s.threads|
  {
    hide Nested;
    TopKeeps(s, OnFinish(s, t).s.(threads := s.threads), t, Top(s.threads[t]).(pc := Leave));
  }

  lemma WorkKeeps(s: State, t: nat, a: Action)
    requires Inv(s) && t < |s.threads| && s.threads[t] != []
    requires a.OpenStream? || a.Transfer? || a.Respond? || a.CloseNow?
    ensures var o := Exec(s, t, a); o.Disabled? || (o.Next? && Inv(o.s) && |o.s.threads| == |s.threads|)
  {
    hide Nested;
    var o := Exec(s, t, a);
    if o.Next? && !a.Transfer? { TopKeeps(s, o.s.(threads := s.threads), t, Top(o.s.threads[t])); }
  }

  /** No step faults: no assertion fails, no request transfers on a socket that was closed. */
  lemma StepKeeps(s: State, t: nat, a: Action)
    requires Inv(s) && t < |s.threads|
    ensures var o := Exec(s, t, a); o.Disabled? || (o.Next? && Inv(o.s) && |o.s.threads| == |s.threads|)
  {
    hide Inv;
    if a.Stop? { StopKeeps(s, t); }
    else if s.threads[t] == [] { if a.Send? { SendKeeps(s, t, a.redirects, a.closeConnection); } }
    else if a.Follow? { if Top(s.threads[t]).pc.Redirecting? { FollowKeeps(s, t, a.sameHost, a.elsewhere); } }
    else if a.Unlock? { if Top(s.threads[t]).pc.Leave? { UnlockKeeps(s, t); } }
    else if a.Prepare? { if Top(s.threads[t]).pc.Enter? { PrepareKeeps(s, t, a.alive, a.connected); } }
    else if a.Finish? { if Top(s.threads[t]).pc.Exit? { FinishKeeps(s, t); } }
    else if !a.Send? { WorkKeeps(s, t, a); }
  }

  /** In every interleaving of send and stop by any number of threads, nothing ever faults. */
  lemma {:induction false} NeverFaults(n: nat, schedule: Schedule, k: nat)
    requires k <= |schedule|
    ensures Run(n, schedule, k).Next? && Inv(Run(n, schedule, k).s) && |Run(n, schedule, k).s.threads| == n
  {
    hide Exec, Inv;
    if k == 0 {
      InitInv(n);
    } else {
      NeverFaults(n, schedule, k - 1);
      var (t, a) := schedule[k - 1];
      var o := Run(n, schedule, k - 1);
      if t < n { StepKeeps(o.s, t, a); }
    }
  }

  // ---------------------------------------------------------------- closing

  /** Thread `u` has a request that may still transfer on the socket `x`. */
  ghost predicate Uses(s: State, u: nat, x: nat) {
    && u < |s.threads|
    && exists k :: 0 <= k < |s.threads[u]| && s.threads[u][k].pc.Working? && s.threads[u][k].stream == x
  }

  /** While a request transfers, no step of any thread closes or replaces the socket it uses. */
  lemma InUseStaysOpen(s: State, t: nat, a: Action, u: nat, x: nat)
    requires Inv(s) && t < |s.threads| && Uses(s, u, x) && Exec(s, t, a).Next?
    ensures s.sock == Some(x) && Exec(s, t, a).s.sock == Some(x)
  {
    var k :| 0 <= k < |s.threads[u]| && s.threads[u][k].pc.Working? && s.threads[u][k].stream == x;
    assert s.owner == Some(u) && k == |s.threads[u]| - 1;
  }

  /** And while one is in flight at all, only its own thread can close or replace the socket. */
  lemma NoForeignClose(s: State, t: nat, a: Action, u: nat)
    requires Inv(s) && t < |s.threads| && u < |s.threads| && t != u && Exec(s, t, a).Next?
    requires s.threads[u] != [] && Counted(Top(s.threads[u]).pc)
    ensures Exec(s, t, a).s.sock == s.sock
  {
    assert s.owner == Some(u) && s.inFlight == |s.threads[u]|;
  }

  /** A request in progress always has an open socket of its own. */
  lemma WorkingHasSocket(s: State, u: nat, k: nat)
    requires Inv(s) && u < |s.threads| && k < |s.threads[u]| && s.threads[u][k].pc.Working?
    ensures Uses(s, u, s.threads[u][k].stream) && s.sock == Some(s.threads[u][k].stream)
  {
    assert s.owner == Some(u) && k == |s.threads[u]| - 1;
  }

  /**
   * When a request ends, its socket is closed if and only if that was due anyway or stop was
   * called in flight after the last time a request prepared the socket.
   */
  lemma EndOfRequest(s: State, t: nat)
    requires Inv(s) && t < |s.threads| && s.threads[t] != [] && Top(s.threads[t]).pc.Exit?
    ensures var f := Top(s.threads[t]); var o := Exec(s, t, Finish);
            o.Next? && (o.s.sock.None? <==>
              s.sock.None? || f.closeConnection || !f.ret || s.lastStop > s.lastPrepare)
  {
    FinishKeeps(s, t);
  }

  /** So a stop during a request that was not redirected on this client closes the socket at its end. */
  lemma StopCloses(s: State, t: nat)
    requires Inv(s) && t < |s.threads| && s.threads[t] != [] && Top(s.threads[t]).pc.Exit?
    requires !Top(s.threads[t]).nested && s.lastStop > Top(s.threads[t]).begun
    ensures Exec(s, t, Finish).Next? && Exec(s, t, Finish).s.sock.None?
  {
    EndOfRequest(s, t);
  }

  /**
   * Over whole runs: when no request is going on, and no request has prepared the socket since
   * stop last found one in flight, the socket is closed.
   */
  lemma StoppedIsClosed(n: nat, schedule: Schedule)
    ensures var o := Run(n, schedule, |schedule|);
            o.Next? && (o.s.owner.None? && o.s.lastStop > o.s.lastPrepare ==> o.s.sock.None?)
  {
    NeverFaults(n, schedule, |schedule|);
  }

  /** A redirected request during which stop is called while the response is being read. */
  function ForgottenStop(): Schedule {
    [(0, Send(20, false)), (0, Prepare(false, true)), (0, OpenStream), (1, Stop), (0, Respond(true, false, true)),
     (0, Follow(true, false)), (0, Prepare(false, true)), (0, OpenStream), (0, Respond(true, false, false)),
     (0, Finish), (0, Unlock), (0, Finish), (0, Unlock)]
  }

  /**
   * The nested request of a redirect forgets an earlier stop: both requests have ended,
   * stop was called while the first was in flight, and the socket is open.
   */
  lemma StopIsForgotten()
    ensures var o := Run(2, ForgottenStop(), 4); o.Next? && o.s.inFlight == 1 && o.s.now == o.s.lastStop == 2
    ensures var o := Run(2, ForgottenStop(), 13); o.Next? && o.s.inFlight == 0 && o.s.sock.Some? && o.s.lastStop == 2
  {
    FirstRequest();
    Redirected();
    NestedRequest();
    BothEnd();
  }

  function Call(pc: Pc, redirects: nat, ret: bool, stream: nat, begun: nat, nested: bool): Frame {
    Frame(pc, redirects, false, ret, stream, begun, nested)
  }

  /** The states of that run: thread 0 alone is in send. */
  function During(flag: bool, sock: Option<nat>, inFlight: nat, now: nat, lastPrepare: nat, lastStop: nat,
                  stack: seq<Frame>): State
  {
    State(if stack == [] then None else Some(0), |stack|, flag, sock, inFlight, if inFlight > 0 then Some(0) else None,
          if sock.None? then 0 else sock.value + 1, now, lastPrepare, lastStop, [stack, []], [])
  }

  lemma Turn(k: nat, s: State, q: State)
    requires k < 13 && |s.threads| == |q.threads| == 2 && Run(2, ForgottenStop(), k) == Next(s)
    requires var o := Exec(s, ForgottenStop()[k].0, ForgottenStop()[k].1);
             && o.Next? && |o.s.threads| == 2 && o.s.(threads := []) == q.(threads := [])
             && o.s.threads[0] == q.threads[0] && o.s.threads[1] == q.threads[1]
    ensures Run(2, ForgottenStop(), k + 1) == Next(q)
  {
    hide Exec;
    assert Exec(s, ForgottenStop()[k].0, ForgottenStop()[k].1).s.threads == q.threads;
  }

  lemma FirstRequest()
    ensures Run(2, ForgottenStop(), 4)
         == Next(During(true, Some(0), 1, 2, 1, 2, [Call(Working, 20, false, 0, 1, false)]))
  {
    hide Run;
    var s0 := During(false, None, 0, 0, 0, 0, []);
    assert Run(2, ForgottenStop(), 0) == Next(s0) by { AtInit(); }
    var s1 := During(false, None, 0, 0, 0, 0, [Call(Enter, 20, false, 0, 0, false)]);
    Turn(0, s0, s1);
    var s2 := During(false, Some(0), 1, 1, 1, 0, [Call(Open, 20, false, 0, 1, false)]);
    Turn(1, s1, s2);
    var s3 := During(false, Some(0), 1, 1, 1, 0, [Call(Working, 20, false, 0, 1, false)]);
    Turn(2, s2, s3);
    Turn(3, s3, During(true, Some(0), 1, 2, 1, 2, [Call(Working, 20, false, 0, 1, false)]));
  }

  lemma AtInit()
    ensures Run(2, ForgottenStop(), 0) == Next(During(false, None, 0, 0, 0, 0, []))
  {
    assert Init(2).threads == [[], []];
  }

  lemma Redirected()
    requires Run(2, ForgottenStop(), 4)
          == Next(During(true, Some(0), 1, 2, 1, 2, [Call(Working, 20, false, 0, 1, false)]))
    ensures Run(2, ForgottenStop(), 6) == Next(During(true, Some(0), 1, 2, 1, 2,
      [Call(Waiting, 20, true, 0, 1, true), Call(Enter, 19, false, 0, 0, false)]))
  {
    hide Run;
    var s4 := During(true, Some(0), 1, 2, 1, 2, [Call(Working, 20, false, 0, 1, false)]);
    var s5 := During(true, Some(0), 1, 2, 1, 2, [Call(Redirecting, 20, true, 0, 1, false)]);
    Turn(4, s4, s5);
    var outer := Call(Waiting, 20, true, 0, 1, true);
    Turn(5, s5, During(true, Some(0), 1, 2, 1, 2, [outer, Call(Enter, 19, false, 0, 0, false)]));
  }

  lemma NestedRequest()
    requires Run(2, ForgottenStop(), 6) == Next(During(true, Some(0), 1, 2, 1, 2,
      [Call(Waiting, 20, true, 0, 1, true), Call(Enter, 19, false, 0, 0, false)]))
    ensures Run(2, ForgottenStop(), 8) == Next(During(false, Some(1), 2, 3, 3, 2,
      [Call(Waiting, 20, true, 0, 1, true), Call(Working, 19, false, 1, 3, false)]))
  {
    hide Run;
    var outer := Call(Waiting, 20, true, 0, 1, true);
    var s6 := During(true, Some(0), 1, 2, 1, 2, [outer, Call(Enter, 19, false, 0, 0, false)]);
    var s7 := During(false, Some(1), 2, 3, 3, 2, [outer, Call(Open, 19, false, 0, 3, false)]);
    Turn(6, s6, s7);
    Turn(7, s7, During(false, Some(1), 2, 3, 3, 2, [outer, Call(Working, 19, false, 1, 3, false)]));
  }

  lemma BothEnd()
    requires Run(2, ForgottenStop(), 8) == Next(During(false, Some(1), 2, 3, 3, 2,
      [Call(Waiting, 20, true, 0, 1, true), Call(Working, 19, false, 1, 3, false)]))
    ensures Run(2, ForgottenStop(), 13) == Next(During(false, Some(1), 0, 3, 3, 2, []).(returned := [(0, true)]))
  {
    hide Run;
    var outer := Call(Waiting, 20, true, 0, 1, true);
    var s8 := During(false, Some(1), 2, 3, 3, 2, [outer, Call(Working, 19, false, 1, 3, false)]);
    var s9 := During(false, Some(1), 2, 3, 3, 2, [outer, Call(Exit, 19, true, 1, 3, false)]);
    Turn(8, s8, s9);
    var s10 := During(false, Some(1), 1, 3, 3, 2, [outer, Call(Leave, 19, true, 1, 3, false)]);
    Turn(9, s9, s10);
    var s11 := During(false, Some(1), 1, 3, 3, 2, [Call(Exit, 20, true, 0, 1, true)]);
    Turn(10, s10, s11);
    var s12 := During(false, Some(1), 0, 3, 3, 2, [Call(Leave, 20, true, 0, 1, true)]);
    Turn(11, s11, s12);
    Turn(12, s12, During(false, Some(1), 0, 3, 3, 2, []).(returned := [(0, true)]));
  }

  // ---------------------------------------------------------------- progress

  /** How many steps, other than transfers, a call of send_ may still take, those of nested calls included. */
  function Remaining(f: Frame): nat {
    match f.pc
    case Enter => 8 + 8 * f.redirects
    case Open => 7 + 8 * f.redirects
    case Working => 6 + 8 * f.redirects
    case Closing(_) => 5 + 8 * f.redirects
    case Redirecting => 4 + 8 * f.redirects
    case Waiting => 3
    case Exit => 2
    case Leave => 1
  }

  function Measure(stack: seq<Frame>): nat {
    if stack == [] then 0 else Measure(stack[..|stack| - 1]) + Remaining(Top(stack))
  }

  lemma MeasureTop(stack: seq<Frame>, f: Frame)
    requires stack != []
    ensures Measure(WithTop(stack, f)) == Measure(stack) - Remaining(Top(stack)) + Remaining(f)
  {
    assert WithTop(stack, f)[..|stack| - 1] == stack[..|stack| - 1];
  }

  lemma MeasurePush(stack: seq<Frame>, f: Frame)
    ensures Measure(stack + [f]) == Measure(stack) + Remaining(f)
  {
    assert (stack + [f])[..|stack|] == stack;
  }

  /**
   * Redirects end: every step of a request other than a transfer (or a stop) lowers its measure,
   * which is 8 * (redirects + 1) when send is called, and nobody else changes it.
   */
  lemma RequestProgress(s: State, t: nat, a: Action, u: nat)
    requires Inv(s) && t < |s.threads| && u < |s.threads| && s.threads[u] != [] && Exec(s, t, a).Next?
    ensures var q := Exec(s, t, a).s;
            if t != u || a.Transfer? || a.Stop? then q.threads[u] == s.threads[u]
            else Measure(q.threads[u]) < Measure(s.threads[u])
  {
    hide Inv, Measure;
    if t != u || a.Transfer? || a.Stop? {
      OthersStay(s, t, a, u);
    } else if a.Unlock? {
      UnlockLowers(s, t);
    } else if a.Follow? && Top(s.threads[t]).redirects > 0 && a.sameHost {
      NestingLowers(s, t, a);
    } else {
      StepLowers(s, t, a);
      MeasureTop(s.threads[t], Top(Exec(s, t, a).s.threads[t]));
    }
  }

  lemma OthersStay(s: State, t: nat, a: Action, u: nat)
    requires t < |s.threads| && u < |s.threads| && (t != u || a.Transfer? || a.Stop?)
    requires s.threads[u] != [] && Exec(s, t, a).Next?
    ensures |Exec(s, t, a).s.threads| == |s.threads| && Exec(s, t, a).s.threads[u] == s.threads[u]
  {
  }

  lemma UnlockLowers(s: State, t: nat)
    requires t < |s.threads| && s.threads[t] != [] && Exec(s, t, Unlock).Next?
    requires Inv(s)
    ensures var q := Exec(s, t, Unlock).s; |q.threads| == |s.threads| && Measure(q.threads[t]) < Measure(s.threads[t])
  {
    hide Measure;
    var stack := s.threads[t];
    var rest := stack[..|stack| - 1];
    MeasurePush(rest, Top(stack));
    assert rest + [Top(stack)] == stack;
    if rest != [] {
      assert Top(rest).pc.Waiting?;
      MeasureTop(rest, Top(rest).(pc := Exit, ret := Top(stack).ret));
    } else {
      MeasureEmpty();
    }
  }

  lemma MeasureEmpty()
    ensures Measure([]) == 0
  {
  }

  lemma NestingLowers(s: State, t: nat, a: Action)
    requires t < |s.threads| && s.threads[t] != [] && Exec(s, t, a).Next?
    requires a.Follow? && a.sameHost && Top(s.threads[t]).redirects > 0
    ensures var q := Exec(s, t, a).s; |q.threads| == |s.threads| && Measure(q.threads[t]) < Measure(s.threads[t])
  {
    hide Measure;
    var f := Top(s.threads[t]);
    var outer := f.(pc := Waiting, nested := true);
    MeasureTop(s.threads[t], outer);
    MeasurePush(WithTop(s.threads[t], outer), Frame(Enter, f.redirects - 1, f.closeConnection, false, 0, 0, false));
  }

  lemma StepLowers(s: State, t: nat, a: Action)
    requires t < |s.threads| && s.threads[t] != [] && Exec(s, t, a).Next?
    requires !a.Stop? && !a.Transfer? && !a.Unlock? && !(a.Follow? && Top(s.threads[t]).redirects > 0 && a.sameHost)
    ensures var q := Exec(s, t, a).s;
            && |q.threads| == |s.threads| && q.threads[t] != []
            && q.threads[t] == WithTop(s.threads[t], Top(q.threads[t]))
            && Remaining(Top(q.threads[t])) < Remaining(Top(s.threads[t]))
  {
  }

  /** A request that may follow `r` redirects nests at most `r` others. */
  lemma {:induction false} RedirectsBoundDepth(s: State, t: nat, k: nat)
    requires Inv(s) && t < |s.threads| && k < |s.threads[t]|
    ensures s.threads[t][k].redirects + k == s.threads[t][0].redirects
  {
    if k > 0 { RedirectsBoundDepth(s, t, k - 1); }
  }

  /** The thread that holds request_mutex_ can always take a step, and when none does every thread can. */
  lemma NeverStuck(s: State, t: nat)
    requires Inv(s) && t < |s.threads| && (s.owner.None? || s.owner == Some(t))
    ensures exists a: Action :: !a.Stop? && !a.Transfer? && Exec(s, t, a).Next?
  {
    var a: Action := Send(20, false);
    if s.threads[t] != [] {
      match Top(s.threads[t]).pc
      case Enter => a := Prepare(true, true);
      case Open => a := OpenStream;
      case Working => a := Respond(true, false, false);
      case Closing(_) => a := CloseNow;
      case Redirecting => a := Follow(true, true);
      case Waiting => assert false;
      case Exit => a := Finish;
      case Leave => a := Unlock;
    }
    StepKeeps(s, t, a);
  }
}
