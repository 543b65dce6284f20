/**
  The multi-threaded session loop: worker threads that receive and process requests, start a further
  thread when the last one becomes busy, retire when too many are idle, and are cancelled, joined
  and freed when the session exits.  Each critical section of the pool's lock is one step.
 */
module WorkerPool {
  /** The number of idle workers above which one retires. */
  const MAX_IDLE: nat := 10

  /** Where a worker thread is in fuse_do_work. */
  datatype Pc =
    | Testing                     // at the head of the loop
    | Receiving                   // in fuse_session_receive_buf, the only place where it can be cancelled
    | Received(forget: bool)      // has a request, wants the lock
    | Processing(forget: bool)    // processes it
    | Retiring                    // off the list, about to free itself
    | Ended                       // the thread has returned or was cancelled

  /** A worker's record; `freed` counts how often it was freed. */
  datatype Worker = Worker(pc: Pc, cancelled: bool, freed: nat)

  datatype Main = Starting | Waiting | Joining | Returned(failed: bool)

  /** Workers by number, in the order they were created, and the pool as the lock protects it. */
  datatype State = State(workers: seq<Worker>, list: seq<nat>, numworker: int, numavail: int,
                         exited: bool, exit: bool, error: bool, main: Main)

  const INITIAL := State([], [], 0, 0, false, false, false, Starting)

  /** What receiving gives: interrupted, end of session, an error, or a request. */
  datatype Got = Again | Nothing | Failure | Request(forget: bool)

  datatype Event =
    | Begin(createOk: bool)                // fuse_session_loop_mt up to the wait
    | Test(w: nat)
    | Receive(w: nat, got: Got)
    | Cancel(w: nat)                       // the cancellation takes effect
    | Take(w: nat, createOk: bool)         // critical section before processing
    | Finish(w: nat)                       // critical section after processing
    | FreeSelf(w: nat)
    | ExitSession                          // fuse_session_exit by anyone else, a signal handler for one
    | Shutdown                             // critical section of the main thread: cancel all, set exit
    | Join                                 // fuse_join_worker for the first on the list
    | Return

  predicate Enabled(s: State, e: Event)
  {
    match e
    case Begin(ok) => s.main.Starting?
    case Test(w) => w < |s.workers| && s.workers[w].pc.Testing?
    case Receive(w, got) => w < |s.workers| && s.workers[w].pc.Receiving? && (got.Nothing? ==> s.exited)
    case Cancel(w) => w < |s.workers| && s.workers[w].pc.Receiving? && s.workers[w].cancelled
    case Take(w, ok) => w < |s.workers| && s.workers[w].pc.Received?
    case Finish(w) => w < |s.workers| && s.workers[w].pc.Processing?
    case FreeSelf(w) => w < |s.workers| && s.workers[w].pc.Retiring?
    case ExitSession => !s.exited
    case Shutdown => s.main.Waiting? && s.exited
    case Join => s.main.Joining? && s.list != [] && s.list[0] < |s.workers| && s.workers[s.list[0]].pc.Ended?
    case Return => s.main.Joining? && s.list == []
  }

  function Without(list: seq<nat>, x: nat): (r: seq<nat>)
    ensures x !in list ==> r == list
    ensures forall y :: y in r <==> y in list && y != x
  {
    if list == [] then []
    else
      assert forall y :: y in list <==> y == list[0] || y in list[1..];
      if list[0] == x then Without(list[1..], x) else [list[0]] + Without(list[1..], x)
  }

  function Move(s: State, w: nat, pc: Pc): State
    requires w < |s.workers|
  {
    s.(workers := s.workers[w := s.workers[w].(pc := pc)])
  }

  /** fuse_loop_start_thread */
  function StartThread(s: State, createOk: bool): State
  {
    if !createOk then s
    else s.(workers := s.workers + [Worker(Testing, false, 0)], list := s.list + [|s.workers|],
            numavail := s.numavail + 1, numworker := s.numworker + 1)
  }

  function DoTake(s: State, w: nat, createOk: bool): State
    requires w < |s.workers| && s.workers[w].pc.Received?
  {
    if s.exit then Move(s, w, Ended)
    else
      var forget := s.workers[w].pc.forget;
      var t := Move(s, w, Processing(forget)).(numavail := if forget then s.numavail else s.numavail - 1);
      if t.numavail == 0 then StartThread(t, createOk) else t
  }

  function DoFinish(s: State, w: nat): State
    requires w < |s.workers| && s.workers[w].pc.Processing?
  {
    var t := s.(numavail := if s.workers[w].pc.forget then s.numavail else s.numavail + 1);
    if t.numavail > MAX_IDLE then
      if s.exit then Move(t, w, Ended)
      else Move(t, w, Retiring).(list := Without(s.list, w), numavail := t.numavail - 1, numworker := t.numworker - 1)
    else Move(t, w, Testing)
  }

  function CancelAll(workers: seq<Worker>, list: seq<nat>): (r: seq<Worker>)
    ensures |r| == |workers|
    ensures forall w :: 0 <= w < |r| ==> r[w] == if w in list then workers[w].(cancelled := true) else workers[w]
  {
    seq(|workers|, w requires 0 <= w < |workers| => if w in list then workers[w].(cancelled := true) else workers[w])
  }

  lemma CancelNone(workers: seq<Worker>)
    ensures CancelAll(workers, []) == workers
  {
  }

  lemma CancelOne(workers: seq<Worker>, list: seq<nat>, i: nat, before: seq<Worker>)
    requires i < |list| && list[i] < |workers| && before == CancelAll(workers, list[..i])
    ensures CancelAll(workers, list[..i + 1]) == before[list[i] := before[list[i]].(cancelled := true)]
  {
    assert list[..i + 1] == list[..i] + [list[i]];
  }

  function Apply(s: State, e: Event): State
    requires Enabled(s, e)
  {
    match e
    case Begin(ok) => StartThread(s, ok).(main := if ok then Waiting else Returned(true))
    case Test(w) => Move(s, w, if s.exited then Ended else Receiving)
    case Receive(w, got) =>
      (match got
       case Again => Move(s, w, Testing)
       case Nothing => Move(s, w, Ended)
       case Failure => Move(s, w, Ended).(exited := true, error := true)
       case Request(forget) => Move(s, w, Received(forget)))
    case Cancel(w) => Move(s, w, Ended)
    case Take(w, ok) => DoTake(s, w, ok)
    case Finish(w) => DoFinish(s, w)
    case FreeSelf(w) => s.(workers := s.workers[w := s.workers[w].(pc := Ended, freed := s.workers[w].freed + 1)])
    case ExitSession => s.(exited := true)
    case Shutdown => s.(workers := CancelAll(s.workers, s.list), exit := true, main := Joining)
    case Join =>
      var w := s.list[0];
      s.(workers := s.workers[w := s.workers[w].(freed := s.workers[w].freed + 1)], list := s.list[1..])
    case Return => s.(main := Returned(s.error))
  }

  // --------------------------------------------------------------- invariant

  ghost predicate Distinct(s: seq<nat>)
  {
    forall i, j :: 0 <= i < j < |s| ==> s[i] != s[j]
  }

  predicate Busy(w: Worker)
  {
    w.pc == Processing(false)
  }

  /** The listed workers that are not serving a request other than FORGET. */
  function Idle(workers: seq<Worker>, list: seq<nat>): set<nat>
    requires forall w :: w in list ==> w < |workers|
  {
    set w | w in list && !Busy(workers[w])
  }

  /** A record is on the list, or its thread is freeing it, or it has been freed: exactly one of the three. */
  predicate WorkerOk(s: State, w: nat)
    requires w < |s.workers|
  {
    var q := s.workers[w];
    && q.freed + (if w in s.list then 1 else 0) + (if q.pc.Retiring? then 1 else 0) == 1
    && (w !in s.list ==> q.pc.Retiring? || q.pc.Ended?)
    && (s.exit && w in s.list ==> q.cancelled)
  }

  ghost predicate Inv(s: State)
  {
    && Distinct(s.list)
    && (forall w :: w in s.list ==> w < |s.workers|)
    && (forall w {:trigger WorkerOk(s, w)} :: 0 <= w < |s.workers| ==> WorkerOk(s, w))
    && (s.main.Starting? ==> s.workers == [] && s.list == [] && !s.exit && s.numworker == s.numavail == 0)
    && (s.main.Returned? ==> s.list == [])
    && (s.exit ==> s.exited && (s.main.Joining? || s.main.Returned?))
    && (s.main.Joining? ==> s.exit)
    && (!s.exit ==> s.numworker == |s.list| && s.numavail == |Idle(s.workers, s.list)| && s.numavail <= MAX_IDLE)
  }

  /** One listed worker turning busy or idle. */
  lemma IdleMove(ws: seq<Worker>, list: seq<nat>, w: nat, q: Worker)
    requires w in list && forall x :: x in list ==> x < |ws|
    ensures |Idle(ws[w := q], list)| == |Idle(ws, list)| + (if Busy(ws[w]) then 1 else 0) - (if Busy(q) then 1 else 0)
  {
    var before, after := Idle(ws, list), Idle(ws[w := q], list);
    if Busy(q) {
      assert after == before - {w};
    } else {
      assert after == before + {w};
    }
  }

  lemma {:induction false} WithoutDistinct(list: seq<nat>, x: nat)
    requires Distinct(list)
    ensures Distinct(Without(list, x)) && |Without(list, x)| == |list| - (if x in list then 1 else 0)
  {
    if list != [] {
      var rest := Without(list[1..], x);
      WithoutDistinct(list[1..], x);
      assert list[0] !in rest by { assert list[0] !in list[1..]; }
      assert x in list <==> x == list[0] || x in list[1..];
    }
  }

  /** A move of one worker that stays on the list, or off it. */
  lemma MoveKeeps(s: State, w: nat, pc: Pc)
    requires Inv(s) && w < |s.workers| && !s.workers[w].pc.Retiring? && !pc.Retiring? && (w in s.list || pc.Ended?)
    requires Busy(s.workers[w]) <==> pc == Processing(false)
    ensures Inv(Move(s, w, pc))
  {
    var t := Move(s, w, pc);
    forall x | 0 <= x < |t.workers| ensures WorkerOk(t, x) { assert WorkerOk(s, x); }
    assert Idle(t.workers, t.list) == Idle(s.workers, s.list);
  }

  /** The new worker, which no list has yet, is listed and idle. */
  lemma StartIdle(workers: seq<Worker>, list: seq<nat>, q: Worker)
    requires (forall w :: w in list ==> w < |workers|) && Distinct(list) && !Busy(q)
    ensures (forall w :: w in list + [|workers|] ==> w < |workers + [q]|) && Distinct(list + [|workers|])
    ensures |Idle(workers + [q], list + [|workers|])| == |Idle(workers, list)| + 1
  {
    forall i | 0 <= i < |list| ensures list[i] != |workers| { assert list[i] in list; }
    assert Idle(workers + [q], list + [|workers|]) == Idle(workers, list) + {|workers|};
  }

  lemma StartKeeps(s: State, createOk: bool)
    requires Inv(s) && !s.exit && s.numavail < MAX_IDLE && !s.main.Starting? && !s.main.Returned?
    ensures Inv(StartThread(s, createOk))
    ensures StartThread(s, createOk).numavail == s.numavail + if createOk then 1 else 0
  {
    if createOk {
      var t := StartThread(s, createOk);
      forall x | 0 <= x < |t.workers| ensures WorkerOk(t, x) {
        if x < |s.workers| { assert WorkerOk(s, x); }
      }
      StartIdle(s.workers, s.list, Worker(Testing, false, 0));
      hide Idle, WorkerOk, Distinct;
    }
  }

  lemma BeginKeeps(s: State, createOk: bool)
    requires Inv(s) && s.main.Starting?
    ensures Inv(Apply(s, Begin(createOk))) && Apply(s, Begin(createOk)).numavail == if createOk then 1 else 0
  {
    var t := Apply(s, Begin(createOk));
    if createOk {
      assert Idle(t.workers, t.list) == {0};
      assert WorkerOk(t, 0);
    }
  }

  lemma TakeKeeps(s: State, w: nat, createOk: bool)
    requires Inv(s) && Enabled(s, Take(w, createOk))
    ensures Inv(DoTake(s, w, createOk))
    ensures !s.exit && createOk && s.numavail >= 1 ==> DoTake(s, w, createOk).numavail >= 1
  {
    assert WorkerOk(s, w);
    if s.exit {
      MoveKeeps(s, w, Ended);
    } else {
      var forget := s.workers[w].pc.forget;
      if forget {
        MoveKeeps(s, w, Processing(true));
      } else {
        var t := Move(s, w, Processing(false)).(numavail := s.numavail - 1);
        IdleMove(s.workers, s.list, w, t.workers[w]);
        forall x | 0 <= x < |t.workers| ensures WorkerOk(t, x) { assert WorkerOk(s, x); }
      }
      var t := Move(s, w, Processing(forget)).(numavail := if forget then s.numavail else s.numavail - 1);
      if t.numavail == 0 { StartKeeps(t, createOk); }
    }
  }

  lemma FinishWorkers(s: State, w: nat)
    requires Inv(s) && Enabled(s, Finish(w))
    ensures forall x {:trigger WorkerOk(DoFinish(s, w), x)} ::
              0 <= x < |DoFinish(s, w).workers| ==> WorkerOk(DoFinish(s, w), x)
  {
    assert WorkerOk(s, w);
    var u := DoFinish(s, w);
    forall x | 0 <= x < |u.workers| ensures WorkerOk(u, x) { assert WorkerOk(s, x); }
  }

  /** Before the shutdown, the worker that finishes is idle again, or retires. */
  lemma FinishIdle(s: State, w: nat)
    requires Inv(s) && Enabled(s, Finish(w)) && !s.exit && w in s.list
    ensures var u := DoFinish(s, w);
            && (forall x :: x in u.list ==> x < |u.workers|) && Distinct(u.list)
            && u.numworker == |u.list| && u.numavail == |Idle(u.workers, u.list)| && 1 <= u.numavail <= MAX_IDLE
  {
    var u := DoFinish(s, w);
    var t := Move(s, w, Testing);
    IdleMove(s.workers, s.list, w, t.workers[w]);
    assert w in Idle(t.workers, s.list);
    if u.workers[w].pc.Retiring? {
      WithoutDistinct(s.list, w);
      assert Idle(u.workers, u.list) == Idle(t.workers, s.list) - {w};
    }
  }

  lemma FinishKeeps(s: State, w: nat)
    requires Inv(s) && Enabled(s, Finish(w))
    ensures Inv(DoFinish(s, w))
    ensures !s.exit ==> DoFinish(s, w).numavail >= 1
  {
    FinishWorkers(s, w);
    assert WorkerOk(s, w);
    if !s.exit { FinishIdle(s, w); }
    hide WorkerOk, Idle;
  }

  lemma ShutdownIs(s: State)
    requires Inv(s) && Enabled(s, Shutdown)
    ensures forall i :: 0 <= i < |s.list| ==> s.list[i] < |s.workers|
    ensures Apply(s, Shutdown) == s.(workers := CancelAll(s.workers, s.list), exit := true, main := Joining)
  {
    forall i | 0 <= i < |s.list| ensures s.list[i] < |s.workers| { assert s.list[i] in s.list; }
  }

  lemma ShutdownKeeps(s: State)
    requires Inv(s) && Enabled(s, Shutdown)
    ensures Inv(Apply(s, Shutdown))
  {
    var t := Apply(s, Shutdown);
    forall x | 0 <= x < |t.workers| ensures WorkerOk(t, x) { assert WorkerOk(s, x); }
  }

  lemma JoinKeeps(s: State)
    requires Inv(s) && Enabled(s, Join)
    ensures Inv(Apply(s, Join))
  {
    var t := Apply(s, Join);
    assert s.list[0] in s.list;
    forall x ensures x in t.list <==> x in s.list && x != s.list[0] { assert s.list == [s.list[0]] + t.list; }
    forall x | 0 <= x < |t.workers| ensures WorkerOk(t, x) { assert WorkerOk(s, x); }
  }

  lemma ReceiveKeeps(s: State, w: nat, got: Got)
    requires Inv(s) && Enabled(s, Receive(w, got))
    ensures Inv(Apply(s, Receive(w, got)))
  {
    assert WorkerOk(s, w);
    var t := Move(s, w, if got.Again? then Testing else if got.Request? then Received(got.forget) else Ended);
    MoveKeeps(s, w, t.workers[w].pc);
    var u := t.(exited := true, error := true);
    forall x | 0 <= x < |u.workers| ensures WorkerOk(u, x) { assert WorkerOk(t, x); }
  }

  lemma FreeSelfKeeps(s: State, w: nat)
    requires Inv(s) && Enabled(s, FreeSelf(w))
    ensures Inv(Apply(s, FreeSelf(w)))
  {
    var t := Apply(s, FreeSelf(w));
    assert WorkerOk(s, w);
    forall x | 0 <= x < |t.workers| ensures WorkerOk(t, x) { assert WorkerOk(s, x); }
    assert Idle(t.workers, t.list) == Idle(s.workers, s.list);
  }

  /**
    Every step keeps the invariant, and creating a thread never failing, it never leaves the pool
    without an idle one.
   */
  lemma StepKeeps(s: State, e: Event)
    requires Inv(s) && Enabled(s, e)
    ensures Inv(Apply(s, e))
    ensures (e.Take? || e.Begin? ==> e.createOk) && (s.main.Waiting? ==> s.numavail >= 1) ==>
              (Apply(s, e).main.Waiting? ==> Apply(s, e).numavail >= 1)
  {
    match e
    case Begin(ok) => BeginKeeps(s, ok);
    case Test(w) => assert WorkerOk(s, w); MoveKeeps(s, w, if s.exited then Ended else Receiving);
    case Receive(w, got) => ReceiveKeeps(s, w, got);
    case Cancel(w) => assert WorkerOk(s, w); MoveKeeps(s, w, Ended);
    case Take(w, ok) => TakeKeeps(s, w, ok);
    case Finish(w) => FinishKeeps(s, w);
    case FreeSelf(w) => FreeSelfKeeps(s, w);
    case ExitSession =>
      var t := Apply(s, e);
      forall x | 0 <= x < |t.workers| ensures WorkerOk(t, x) { assert WorkerOk(s, x); }
    case Shutdown => ShutdownKeeps(s);
    case Join => JoinKeeps(s);
    case Return =>
      var t := Apply(s, e);
      forall x | 0 <= x < |t.workers| ensures WorkerOk(t, x) { assert WorkerOk(s, x); }
  }

  // -------------------------------------------------------------------- runs

  lemma InitialInv()
    ensures Inv(INITIAL)
  {
  }

  ghost predicate CanRun(s: State, es: seq<Event>)
    requires Inv(s)
    decreases |es|
  {
    es == [] || (Enabled(s, es[0]) && (StepKeeps(s, es[0]); CanRun(Apply(s, es[0]), es[1..])))
  }

  ghost function Run(s: State, es: seq<Event>): (t: State)
    requires Inv(s) && CanRun(s, es)
    ensures Inv(t)
    decreases |es|
  {
    if es == [] then s else
      StepKeeps(s, es[0]);
      Run(Apply(s, es[0]), es[1..])
  }

  ghost predicate Reachable(es: seq<Event>)
    ensures Reachable(es) ==> Inv(INITIAL)
  {
    InitialInv();
    CanRun(INITIAL, es)
  }

  /** A worker that takes a request would leave no idle one behind, and so attempts to create a thread. */
  predicate AttemptsCreation(s: State, e: Event)
    requires Enabled(s, e)
  {
    e.Take? && !s.exit && !s.workers[e.w].pc.forget && s.numavail == 1
  }

  /** Every creation that a worker attempts in the run succeeds. */
  ghost predicate CreationsSucceed(s: State, es: seq<Event>)
    requires Inv(s) && CanRun(s, es)
    decreases |es|
  {
    es != [] ==>
      && (AttemptsCreation(s, es[0]) ==> es[0].createOk)
      && (StepKeeps(s, es[0]); CreationsSucceed(Apply(s, es[0]), es[1..]))
  }

  /** In every state of the run in which the main thread waits, some worker is idle. */
  ghost predicate IdleThroughout(s: State, es: seq<Event>)
    requires Inv(s) && CanRun(s, es)
    decreases |es|
  {
    && (s.main.Waiting? ==> s.numavail >= 1)
    && (es != [] ==> (StepKeeps(s, es[0]); IdleThroughout(Apply(s, es[0]), es[1..])))
  }

  /** Of two steps in the same place, the one that fails to create a thread leaves no idle worker. */
  lemma TakeIdle(s: State, w: nat, createOk: bool)
    requires Inv(s) && Enabled(s, Take(w, createOk)) && !s.exit && s.numavail >= 1
    ensures s.main.Waiting? && DoTake(s, w, createOk).main.Waiting?
    ensures DoTake(s, w, createOk).numavail >= 1 <==> (AttemptsCreation(s, Take(w, createOk)) ==> createOk)
  {
    assert WorkerOk(s, w);
    TakeKeeps(s, w, createOk);
  }

  lemma {:induction false} IdleRun(s: State, es: seq<Event>)
    requires Inv(s) && CanRun(s, es) && (s.main.Waiting? ==> s.numavail >= 1)
    ensures IdleThroughout(s, es) <==> CreationsSucceed(s, es)
    decreases |es|
  {
    if es != [] {
      var e, t := es[0], Apply(s, es[0]);
      StepKeeps(s, e);
      if e.Take? && !s.exit {
        assert WorkerOk(s, e.w);
        TakeIdle(s, e.w, e.createOk);
      }
      if t.main.Waiting? ==> t.numavail >= 1 { IdleRun(t, es[1..]); }
    }
  }

  /** If the first thread cannot be created, the main thread returns with a failure and never waits. */
  lemma {:induction false} FailedStart(s: State, es: seq<Event>)
    requires Inv(s) && CanRun(s, es) && (s.main == Returned(true) || Begin(false) in es)
    ensures Run(s, es).main == Returned(true)
    decreases |es|
  {
    if es != [] {
      StepKeeps(s, es[0]);
      assert Begin(false) in es ==> es[0] == Begin(false) || Begin(false) in es[1..];
      FailedStart(Apply(s, es[0]), es[1..]);
    }
  }

  /**
    Before the shutdown the counters are what they are named after, and at most ten workers are idle.
    Some worker is idle whenever the main thread waits and the lock is free, if and only if every
    creation that a worker attempts succeeds; if the very first creation fails, the main thread returns
    with a failure and does not wait at all.
   */
  lemma CountersInRuns(es: seq<Event>)
    requires Reachable(es)
    ensures var s := Run(INITIAL, es);
            !s.exit ==> s.numworker == |s.list| && s.numavail == |Idle(s.workers, s.list)| && 0 <= s.numavail <= MAX_IDLE
    ensures IdleThroughout(INITIAL, es) <==> CreationsSucceed(INITIAL, es)
    ensures Begin(false) in es ==> Run(INITIAL, es).main == Returned(true)
  {
    IdleRun(INITIAL, es);
    if Begin(false) in es { FailedStart(INITIAL, es); }
  }

  /** A run in which a creation fails: the first request is taken when no thread can be created. */
  lemma CreationFails()
    ensures var es := [Begin(true), Test(0), Receive(0, Request(false)), Take(0, false)];
            Reachable(es) && Run(INITIAL, es).numavail == 0 && Run(INITIAL, es).main.Waiting?
  {
    InitialInv();
    var s1 := Apply(INITIAL, Begin(true));
    StepKeeps(INITIAL, Begin(true));
    var s2 := Apply(s1, Test(0));
    StepKeeps(s1, Test(0));
    var s3 := Apply(s2, Receive(0, Request(false)));
    StepKeeps(s2, Receive(0, Request(false)));
    var s4 := Apply(s3, Take(0, false));
    StepKeeps(s3, Take(0, false));
    assert CanRun(s4, []) && Run(s4, []) == s4;
    assert [Take(0, false)][1..] == [];
    assert CanRun(s3, [Take(0, false)]);
    assert [Receive(0, Request(false)), Take(0, false)][1..] == [Take(0, false)];
    assert CanRun(s2, [Receive(0, Request(false)), Take(0, false)]);
    assert [Test(0), Receive(0, Request(false)), Take(0, false)][1..] == [Receive(0, Request(false)), Take(0, false)];
    assert CanRun(s1, [Test(0), Receive(0, Request(false)), Take(0, false)]);
    var es := [Begin(true), Test(0), Receive(0, Request(false)), Take(0, false)];
    assert es[1..] == [Test(0), Receive(0, Request(false)), Take(0, false)];
  }

  /** The worker whose record a step reads or writes. */
  function Uses(s: State, e: Event): set<nat>
    requires Enabled(s, e)
  {
    match e
    case Test(w) => {w}
    case Receive(w, got) => {w}
    case Cancel(w) => {w}
    case Take(w, ok) => {w}
    case Finish(w) => {w}
    case FreeSelf(w) => {w}
    case Shutdown => set w | w in s.list
    case Join => {s.list[0]}
    case _ => {}
  }

  /**
    Who frees a worker: whatever the race between retiring and shutting down, a record is freed at
    most once, by its own thread or by the joiner, and no step uses it afterwards.
   */
  lemma FreedOnce(es: seq<Event>, w: nat)
    requires Reachable(es) && w < |Run(INITIAL, es).workers|
    ensures var s := Run(INITIAL, es);
            && s.workers[w].freed <= 1
            && (s.workers[w].freed == 1 <==> w !in s.list && s.workers[w].pc.Ended?)
            && forall e :: Enabled(s, e) && w in Uses(s, e) ==> s.workers[w].freed == 0
  {
    assert WorkerOk(Run(INITIAL, es), w);
  }

  /** Steps that use the pool itself, which lives on the stack of the main thread. */
  predicate UsesPool(e: Event)
  {
    e.Test? || e.Receive? || e.Take? || e.Finish?
  }

  /** Once the main thread has returned no worker touches the pool again. */
  lemma PoolOutlivesWorkers(es: seq<Event>, e: Event)
    requires Reachable(es) && Run(INITIAL, es).main.Returned? && Enabled(Run(INITIAL, es), e)
    ensures !UsesPool(e)
  {
    var s := Run(INITIAL, es);
    forall w | 0 <= w < |s.workers| ensures s.workers[w].pc.Retiring? || s.workers[w].pc.Ended? { assert WorkerOk(s, w); }
  }

  // ---------------------------------------------------------------- shutdown

  function Rank(w: Worker): nat
  {
    match w.pc
    case Testing => 1
    case Receiving => 2
    case Received(_) => 1
    case Processing(_) => 2
    case Retiring => 1
    case Ended => 0
  }

  function Ranks(ws: seq<Worker>): nat
  {
    if ws == [] then 0 else Ranks(ws[..|ws| - 1]) + Rank(ws[|ws| - 1])
  }

  lemma {:induction false} RanksMove(ws: seq<Worker>, w: nat, q: Worker)
    requires w < |ws|
    ensures Ranks(ws[w := q]) == Ranks(ws) - Rank(ws[w]) + Rank(q)
  {
    var n := |ws| - 1;
    if w == n {
      assert ws[w := q][..n] == ws[..n];
    } else {
      assert ws[w := q][..n] == ws[..n][w := q];
      RanksMove(ws[..n], w, q);
    }
  }

  /** The steps a pool that is shutting down can still take. */
  function Left(s: State): nat
  {
    Ranks(s.workers) + |s.list| + if s.main.Returned? then 0 else 1
  }

  lemma ShutdownStep(s: State, e: Event)
    requires Inv(s) && s.exit && Enabled(s, e)
    ensures Apply(s, e).exit && Left(Apply(s, e)) < Left(s)
  {
    match e
    case Test(w) => RanksMove(s.workers, w, s.workers[w].(pc := Ended));
    case Receive(w, got) => RanksMove(s.workers, w, Apply(s, e).workers[w]);
    case Cancel(w) => RanksMove(s.workers, w, s.workers[w].(pc := Ended));
    case Take(w, ok) => RanksMove(s.workers, w, s.workers[w].(pc := Ended));
    case Finish(w) => RanksMove(s.workers, w, Apply(s, e).workers[w]);
    case FreeSelf(w) => RanksMove(s.workers, w, Apply(s, e).workers[w]);
    case Join => RanksMove(s.workers, s.list[0], Apply(s, e).workers[s.list[0]]);
    case _ =>
  }

  /** The shutdown terminates in every interleaving. */
  lemma {:induction false} ShutdownTerminates(s: State, es: seq<Event>)
    requires Inv(s) && s.exit && CanRun(s, es)
    ensures |es| <= Left(s)
    decreases |es|
  {
    if es != [] {
      ShutdownStep(s, es[0]);
      StepKeeps(s, es[0]);
      ShutdownTerminates(Apply(s, es[0]), es[1..]);
    }
  }

  /**
    It does not get stuck before its end, even if nothing is ever received again: when no other step
    is left, the main thread has returned, and every worker has ended and was freed exactly once.
   */
  lemma ShutdownCompletes(es: seq<Event>)
    requires Reachable(es) && Run(INITIAL, es).exit
    requires forall e :: Enabled(Run(INITIAL, es), e) ==> e.Receive?
    ensures var s := Run(INITIAL, es);
            s.main.Returned? && s.list == []
            && forall w :: 0 <= w < |s.workers| ==> s.workers[w].pc.Ended? && s.workers[w].freed == 1
  {
    var s := Run(INITIAL, es);
    forall w | 0 <= w < |s.workers| ensures s.workers[w].pc.Ended? {
      assert WorkerOk(s, w);
      assert !Enabled(s, Test(w)) && !Enabled(s, Cancel(w)) && !Enabled(s, Take(w, true)) && !Enabled(s, Finish(w));
      assert !Enabled(s, FreeSelf(w));
    }
    forall i | 0 <= i < |s.list| ensures s.list[i] < |s.workers| { assert s.list[i] in s.list; }
    assert !Enabled(s, Join) && !Enabled(s, Return);
    forall w | 0 <= w < |s.workers| ensures s.workers[w].freed == 1 { assert WorkerOk(s, w); }
  }

  // ------------------------------------------------ the critical sections, in place

  /** struct fuse_mt, as the code under its lock changes it. */
  class Pool {
    var workers: seq<Worker>
    var list: seq<nat>
    var numworker: int
    var numavail: int
    var exited: bool
    var exit: bool
    var error: bool
    var main: Main

    ghost function View(): State
      reads this
    {
      State(workers, list, numworker, numavail, exited, exit, error, main)
    }

    method StartWorker(createOk: bool) returns (res: int)
      modifies this`workers, this`list, this`numworker, this`numavail
      ensures View() == StartThread(old(View()), createOk) && res == if createOk then 0 else -1
    {
      if !createOk {
        return -1;
      }
      list := list + [|workers|];
      workers := workers + [Worker(Testing, false, 0)];
      numavail := numavail + 1;
      numworker := numworker + 1;
      return 0;
    }

    /** From receiving a request to processing it; false when the pool is shutting down. */
    method TakeRequest(w: nat, createOk: bool) returns (go: bool)
      requires Inv(View()) && Enabled(View(), Take(w, createOk))
      modifies this
      ensures View() == Apply(old(View()), Take(w, createOk)) && Inv(View()) && go == !exit
    {
      hide Inv, Idle, Distinct;
      StepKeeps(View(), Take(w, createOk));
      var isforget := workers[w].pc.forget;
      if exit {
        workers := workers[w := workers[w].(pc := Ended)];
        return false;
      }
      workers := workers[w := workers[w].(pc := Processing(isforget))];
      if !isforget {
        numavail := numavail - 1;
      }
      if numavail == 0 {
        var _ := StartWorker(createOk);
      }
      return true;
    }

    /** From processing a request to the next one; true when the worker goes on. */
    method FinishRequest(w: nat) returns (go: bool)
      requires Inv(View()) && Enabled(View(), Finish(w))
      modifies this
      ensures View() == Apply(old(View()), Finish(w)) && Inv(View()) && (go <==> workers[w].pc.Testing?)
    {
      hide Inv, Idle, Distinct, Without;
      StepKeeps(View(), Finish(w));
      if !workers[w].pc.forget {
        numavail := numavail + 1;
      }
      if numavail > MAX_IDLE {
        if exit {
          workers := workers[w := workers[w].(pc := Ended)];
          return false;
        }
        list := Without(list, w);
        numavail := numavail - 1;
        numworker := numworker - 1;
        workers := workers[w := workers[w].(pc := Retiring)];
        return false;
      }
      workers := workers[w := workers[w].(pc := Testing)];
      return true;
    }

    /** Cancels every listed worker, one by one. */
    method CancelWorkers()
      requires Inv(View()) && Enabled(View(), Shutdown)
      modifies this
      ensures View() == Apply(old(View()), Shutdown) && Inv(View())
    {
      hide Inv, CancelAll, Apply, Enabled;
      ghost var s := View();
      StepKeeps(s, Shutdown);
      ShutdownIs(s);
      var i := 0;
      assert list[..0] == [];
      CancelNone(workers);
      while i < |list|
        invariant i <= |list| && View() == s.(workers := workers)
        invariant |workers| == |s.workers| && workers == CancelAll(s.workers, list[..i])
      {
        CancelOne(s.workers, list, i, workers);
        workers := workers[list[i] := workers[list[i]].(cancelled := true)];
        i := i + 1;
      }
      assert list[..i] == list;
      exit := true;
      main := Joining;
    }
  }
}
