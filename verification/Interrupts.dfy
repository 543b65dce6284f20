/**
  The interrupt protocol of the low-level library.  An INTERRUPT message names a request by its
  unique id; it may arrive before the request, while it is served or after it was answered.  Two
  kinds of lock are involved: the session lock, whose critical sections are single steps here, and
  the lock of each request, which is held across several steps and across the callback.
 */
module Interrupts {
  import opened Wrappers

  /** What the thread serving a request is doing; Reg* are the stages of fuse_req_interrupt_func. */
  datatype WorkerPc =
    | Serving
    | RegHolds(f: Option<nat>)   // has the request lock
    | RegTest(f: Option<nat>)    // has stored the callback
    | RegCalls(running: nat)           // runs the callback
    | RegUnlocks
    | Done                       // fuse_free_req has run

  datatype Owner = Free | ByWorker | ByMessage(m: nat)

  /** `called` and `calls` are history: the callback called last since the last registration, and the calls in all. */
  datatype Req = Req(unique: nat, ctr: int, interrupted: bool, func: Option<nat>, lock: Owner, pc: WorkerPc,
                     destroyed: nat, called: Option<nat>, calls: nat)

  /** Where a message that found its request is in find_interrupted. */
  datatype Visit = Waits | Locked | Marked(f: Option<nat>) | Calls(running: nat) | Unlocks | Leaves

  /** A duplicate names the message for the same request that was pending when it came. */
  datatype Fate = Visiting(r: nat, at: Visit) | Pending | Bouncing | Applied(r: nat) | Duplicate(of: nat) | Bounced

  /** An INTERRUPT message: whose interrupt it is, what became of it, and how often it was answered and freed. */
  datatype Message = Message(unique: nat, fate: Fate, replies: nat, destroyed: nat)

  datatype State = State(reqs: map<nat, Req>, msgs: map<nat, Message>, active: seq<nat>, pending: seq<nat>)

  const INITIAL := State(map[], map[], [], [])

  // ------------------------------------------------------------------- lists

  ghost predicate Distinct(s: seq<nat>)
  {
    forall i, j :: 0 <= i < j < |s| ==> s[i] != s[j]
  }

  /** Position of the first element of `list` that is in `wanted`, or the length. */
  function First(list: seq<nat>, wanted: set<nat>): (i: nat)
    ensures i <= |list| && (i < |list| ==> list[i] in wanted)
    ensures forall j :: 0 <= j < i ==> list[j] !in wanted
  {
    if list == [] || list[0] in wanted then 0 else 1 + First(list[1..], wanted)
  }

  function Without(list: seq<nat>, x: nat): (r: seq<nat>)
    requires Distinct(list)
    ensures Distinct(r) && x !in r
    ensures forall y :: y in r <==> y in list && y != x
  {
    if list == [] then []
    else
      assert forall y :: y in list <==> y == list[0] || y in list[1..];
      if list[0] == x then list[1..]
      else
        var rest := Without(list[1..], x);
        assert list[0] !in rest by { assert list[0] !in list[1..]; }
        [list[0]] + rest
  }

  function RequestsNamed(s: State, unique: nat): set<nat>
  {
    set r | r in s.reqs && s.reqs[r].unique == unique
  }

  function MessagesFor(s: State, unique: nat): set<nat>
  {
    set m | m in s.msgs && s.msgs[m].unique == unique
  }

  /** The messages that hold a reference to request `r`. */
  function Visitors(msgs: map<nat, Message>, r: nat): set<nat>
  {
    set m | m in msgs && msgs[m].fate.Visiting? && msgs[m].fate.r == r
  }

  // --------------------------------------------------------------- invariant

  predicate HasLock(fate: Fate, r: nat)
  {
    fate.Visiting? && fate.r == r && (fate.at.Locked? || fate.at.Marked? || fate.at.Calls? || fate.at.Unlocks?)
  }

  predicate WorkerHasLock(pc: WorkerPc)
  {
    pc.RegHolds? || pc.RegTest? || pc.RegCalls? || pc.RegUnlocks?
  }

  /** The lock holder has seen or is about to see that the request is interrupted, and will call. */
  predicate CallDue(q: Req, msgs: map<nat, Message>)
  {
    q.pc.RegTest? || (q.lock.ByMessage? && q.lock.m in msgs && msgs[q.lock.m].fate.Visiting? && msgs[q.lock.m].fate.at.Marked?)
  }

  ghost predicate RequestOk(s: State, r: nat)
    requires r in s.reqs
  {
    var q := s.reqs[r];
    && q.ctr == |Visitors(s.msgs, r)| + (if q.pc.Done? then 0 else 1)
    && q.destroyed == (if q.ctr == 0 then 1 else 0)
    && (q.lock == ByWorker <==> WorkerHasLock(q.pc))
    && (q.lock.ByMessage? ==> q.lock.m in s.msgs && HasLock(s.msgs[q.lock.m].fate, r))
    && (q.pc.RegTest? ==> q.func == q.pc.f)
    && (q.pc.RegCalls? ==> q.func == Some(q.pc.running) && q.interrupted)
    && (q.pc.Done? ==> q.func.None?)
    && (q.func.Some? && q.interrupted ==> q.called == q.func || CallDue(q, s.msgs))
  }

  ghost predicate MessageOk(s: State, m: nat)
    requires m in s.msgs
  {
    var fate := s.msgs[m].fate;
    && (fate.Visiting? ==>
          && fate.r in s.reqs
          && (HasLock(fate, fate.r) ==> s.reqs[fate.r].lock == ByMessage(m))
          && (HasLock(fate, fate.r) && !fate.at.Locked? ==> s.reqs[fate.r].interrupted)
          && (fate.at.Leaves? ==> s.reqs[fate.r].interrupted)
          && (fate.at.Marked? ==> s.reqs[fate.r].func == fate.at.f || s.reqs[fate.r].pc.Done?)
          && (fate.at.Calls? ==> s.reqs[fate.r].func == Some(fate.at.running) || s.reqs[fate.r].pc.Done?))
    && (fate.Applied? ==> fate.r in s.reqs && s.reqs[fate.r].interrupted)
    && (fate.Visiting? || fate.Applied? ==> s.reqs[fate.r].unique == s.msgs[m].unique)
    && s.msgs[m].destroyed == (if fate.Applied? || fate.Duplicate? || fate.Bounced? then 1 else 0)
    && s.msgs[m].replies == (if fate.Bounced? then 1 else 0)
  }

  /**
    The two lists hold exactly what is served and what waits; no interrupt waits twice, or for a
    request being served.
   */
  ghost predicate ListsOk(s: State)
  {
    && Distinct(s.active) && Distinct(s.pending)
    && (forall r :: r in s.active <==> r in s.reqs && !s.reqs[r].pc.Done?)
    && (forall m :: m in s.pending <==> m in s.msgs && s.msgs[m].fate.Pending?)
    && (forall m, n :: m in s.pending && n in s.pending && m != n ==> s.msgs[m].unique != s.msgs[n].unique)
    && (forall m, r :: m in s.pending && r in s.active ==> s.msgs[m].unique != s.reqs[r].unique)
  }

  ghost predicate Orderly(s: State)
  {
    && ListsOk(s)
    && (forall r {:trigger RequestOk(s, r)} :: r in s.reqs ==> RequestOk(s, r))
    && (forall m {:trigger MessageOk(s, m)} :: m in s.msgs ==> MessageOk(s, m))
  }

  /** Message `m` is for request `r`, has found it, and has marked it. */
  predicate Marks(s: State, m: nat, r: nat)
  {
    && m in s.msgs && r in s.reqs && s.msgs[m].unique == s.reqs[r].unique
    && (s.msgs[m].fate == Applied(r)
        || (s.msgs[m].fate.Visiting? && s.msgs[m].fate.r == r && !s.msgs[m].fate.at.Waits? && !s.msgs[m].fate.at.Locked?))
  }

  ghost predicate MarkedByMessage(s: State, r: nat)
  {
    exists m :: Marks(s, m, r)
  }

  /** Message `n` for the same request was there before the duplicate `m`, and has been pending. */
  predicate Twin(s: State, m: nat, n: nat)
  {
    m in s.msgs && n in s.msgs && m != n && s.msgs[n].unique == s.msgs[m].unique && WasPending(s.msgs[n].fate)
  }

  predicate WasPending(fate: Fate)
  {
    fate.Pending? || fate.Bouncing? || fate.Bounced? || fate.Applied?
  }

  /** No request is interrupted but through a message for it, and no message is dropped but for another one. */
  ghost predicate Accountable(s: State)
  {
    && (forall r {:trigger MarkedByMessage(s, r)} :: r in s.reqs && s.reqs[r].interrupted ==> MarkedByMessage(s, r))
    && (forall m :: m in s.msgs && s.msgs[m].fate.Duplicate? ==> Twin(s, m, s.msgs[m].fate.of))
  }

  ghost predicate Inv(s: State)
  {
    Orderly(s) && Accountable(s)
  }

  // ------------------------------------------------------------------- steps

  datatype Event =
    | Arrive(r: nat, unique: nat)                // a request is read: check_interrupt, then listed
    | RegisterLock(r: nat, f: Option<nat>)       // fuse_req_interrupt_func, stage by stage
    | RegisterSet(r: nat)
    | RegisterTest(r: nat)
    | RegisterReturn(r: nat)
    | RegisterUnlock(r: nat)
    | Finish(r: nat)                             // fuse_free_req
    | Interrupt(m: nat, unique: nat)             // do_interrupt up to where find_interrupted lets go of the session lock
    | InterruptLock(m: nat)                      // find_interrupted, stage by stage
    | InterruptMark(m: nat)
    | InterruptTest(m: nat)
    | InterruptReturn(m: nat)
    | InterruptUnlock(m: nat)
    | InterruptLeave(m: nat)
    | Bounce(m: nat)                             // fuse_reply_err(intr, EAGAIN)

  predicate At(s: State, m: nat)
  {
    m in s.msgs && s.msgs[m].fate.Visiting? && s.msgs[m].fate.r in s.reqs
  }

  predicate Enabled(s: State, e: Event)
  {
    match e
    case Arrive(r, u) => r !in s.reqs
    case RegisterLock(r, f) => r in s.reqs && s.reqs[r].pc.Serving? && s.reqs[r].lock.Free?
    case RegisterSet(r) => r in s.reqs && s.reqs[r].pc.RegHolds?
    case RegisterTest(r) => r in s.reqs && s.reqs[r].pc.RegTest?
    case RegisterReturn(r) => r in s.reqs && s.reqs[r].pc.RegCalls?
    case RegisterUnlock(r) => r in s.reqs && s.reqs[r].pc.RegUnlocks?
    case Finish(r) => r in s.reqs && s.reqs[r].pc.Serving?
    case Interrupt(m, u) => m !in s.msgs
    case InterruptLock(m) => At(s, m) && s.msgs[m].fate.at.Waits? && s.reqs[s.msgs[m].fate.r].lock.Free?
    case InterruptMark(m) => At(s, m) && s.msgs[m].fate.at.Locked?
    case InterruptTest(m) => At(s, m) && s.msgs[m].fate.at.Marked?
    case InterruptReturn(m) => At(s, m) && s.msgs[m].fate.at.Calls?
    case InterruptUnlock(m) => At(s, m) && s.msgs[m].fate.at.Unlocks?
    case InterruptLeave(m) => At(s, m) && s.msgs[m].fate.at.Leaves?
    case Bounce(m) => m in s.msgs && s.msgs[m].fate.Bouncing?
  }

  function SetReq(s: State, r: nat, q: Req): State { s.(reqs := s.reqs[r := q]) }

  function MoveVisit(s: State, m: nat, at: Visit, q: Req): State
    requires At(s, m)
  {
    var msg := s.msgs[m];
    State(s.reqs[msg.fate.r := q], s.msgs[m := msg.(fate := Visiting(msg.fate.r, at))], s.active, s.pending)
  }

  function NewReq(unique: nat, interrupted: bool): Req
  {
    Req(unique, 1, interrupted, None, Free, Serving, 0, None, 0)
  }

  /** The critical section in which a new request meets the pending interrupts: its own, or else the oldest. */
  function DoArrive(s: State, r: nat, unique: nat): State
    requires ListsOk(s)
  {
    var i := First(s.pending, MessagesFor(s, unique));
    if i < |s.pending| then
      var m := s.pending[i];
      State(s.reqs[r := NewReq(unique, true)],
            s.msgs[m := s.msgs[m].(fate := Applied(r), destroyed := s.msgs[m].destroyed + 1)],
            s.active + [r], Without(s.pending, m))
    else if s.pending != [] then
      var m := s.pending[0];
      State(s.reqs[r := NewReq(unique, false)], s.msgs[m := s.msgs[m].(fate := Bouncing)],
            s.active + [r], s.pending[1..])
    else
      State(s.reqs[r := NewReq(unique, false)], s.msgs, s.active + [r], s.pending)
  }

  /** The first critical section of do_interrupt. */
  function DoInterrupt(s: State, m: nat, unique: nat): State
    requires ListsOk(s) && m !in s.msgs
  {
    var i := First(s.active, RequestsNamed(s, unique));
    if i < |s.active| then
      var r := s.active[i];
      State(s.reqs[r := s.reqs[r].(ctr := s.reqs[r].ctr + 1)], s.msgs[m := Message(unique, Visiting(r, Waits), 0, 0)],
            s.active, s.pending)
    else if First(s.pending, MessagesFor(s, unique)) < |s.pending| then
      s.(msgs := s.msgs[m := Message(unique, Duplicate(s.pending[First(s.pending, MessagesFor(s, unique))]), 0, 1)])
    else
      s.(msgs := s.msgs[m := Message(unique, Pending, 0, 0)], pending := s.pending + [m])
  }

  function DropRef(q: Req): Req
  {
    q.(ctr := q.ctr - 1, destroyed := if q.ctr == 1 then q.destroyed + 1 else q.destroyed)
  }

  function DoFinish(s: State, r: nat): State
    requires ListsOk(s) && r in s.reqs
  {
    s.(reqs := s.reqs[r := DropRef(s.reqs[r].(func := None, pc := Done))], active := Without(s.active, r))
  }

  function DoLeave(s: State, m: nat): State
    requires At(s, m)
  {
    var msg := s.msgs[m];
    s.(reqs := s.reqs[msg.fate.r := DropRef(s.reqs[msg.fate.r])],
       msgs := s.msgs[m := msg.(fate := Applied(msg.fate.r), destroyed := msg.destroyed + 1)])
  }

  function Apply(s: State, e: Event): State
    requires ListsOk(s) && Enabled(s, e)
  {
    match e
    case Arrive(r, u) => DoArrive(s, r, u)
    case RegisterLock(r, f) => SetReq(s, r, s.reqs[r].(lock := ByWorker, pc := RegHolds(f)))
    case RegisterSet(r) =>
      var q := s.reqs[r];
      SetReq(s, r, q.(func := q.pc.f, called := None, pc := RegTest(q.pc.f)))
    case RegisterTest(r) =>
      var q := s.reqs[r];
      if q.interrupted && q.pc.f.Some? then SetReq(s, r, q.(pc := RegCalls(q.pc.f.value), called := q.pc.f, calls := q.calls + 1))
      else SetReq(s, r, q.(pc := RegUnlocks))
    case RegisterReturn(r) => SetReq(s, r, s.reqs[r].(pc := RegUnlocks))
    case RegisterUnlock(r) => SetReq(s, r, s.reqs[r].(lock := Free, pc := Serving))
    case Finish(r) => DoFinish(s, r)
    case Interrupt(m, u) => DoInterrupt(s, m, u)
    case InterruptLock(m) =>
      var q := s.reqs[s.msgs[m].fate.r];
      MoveVisit(s, m, Locked, q.(lock := ByMessage(m)))
    case InterruptMark(m) =>
      var q := s.reqs[s.msgs[m].fate.r];
      MoveVisit(s, m, Marked(q.func), q.(interrupted := true))
    case InterruptTest(m) =>
      var q := s.reqs[s.msgs[m].fate.r];
      var f := s.msgs[m].fate.at.f;
      if f.Some? then MoveVisit(s, m, Calls(f.value), q.(called := f, calls := q.calls + 1)) else MoveVisit(s, m, Unlocks, q)
    case InterruptReturn(m) => MoveVisit(s, m, Unlocks, s.reqs[s.msgs[m].fate.r])
    case InterruptUnlock(m) =>
      var q := s.reqs[s.msgs[m].fate.r];
      MoveVisit(s, m, Leaves, q.(lock := Free))
    case InterruptLeave(m) => DoLeave(s, m)
    case Bounce(m) =>
      var msg := s.msgs[m];
      s.(msgs := s.msgs[m := msg.(fate := Bounced, replies := msg.replies + 1, destroyed := msg.destroyed + 1)])
  }

  // ------------------------------------------------------------ preservation

  /** From s to s', only request `r` and the messages in `ms` (which visit no other request) have changed. */
  ghost predicate OnlyTouches(s: State, s': State, r: nat, ms: set<nat>)
  {
    && (forall x {:trigger x in s'.reqs} {:trigger x in s.reqs} :: x != r ==> (x in s'.reqs <==> x in s.reqs))
    && (forall x {:trigger s'.reqs[x]} {:trigger s.reqs[x]} :: x != r && x in s.reqs && x in s'.reqs ==> s'.reqs[x] == s.reqs[x])
    && (forall x {:trigger x in s'.msgs} {:trigger x in s.msgs} :: x !in ms ==> (x in s'.msgs <==> x in s.msgs))
    && (forall x {:trigger s'.msgs[x]} {:trigger s.msgs[x]} :: x !in ms && x in s.msgs && x in s'.msgs ==> s'.msgs[x] == s.msgs[x])
    && (forall x :: x in ms && x in s.msgs && s.msgs[x].fate.Visiting? ==> s.msgs[x].fate.r == r)
    && (forall x :: x in ms && x in s'.msgs && s'.msgs[x].fate.Visiting? ==> s'.msgs[x].fate.r == r)
  }

  lemma OthersKeep(s: State, s': State, r: nat, ms: set<nat>)
    requires Orderly(s) && OnlyTouches(s, s', r, ms)
    ensures forall x {:trigger RequestOk(s', x)} :: x in s'.reqs && x != r ==> RequestOk(s', x)
  {
    forall x | x in s'.reqs && x != r ensures RequestOk(s', x) {
      assert RequestOk(s, x);
      assert Visitors(s'.msgs, x) == Visitors(s.msgs, x);
    }
  }

  /** Messages not touched by the step stay in order if the request's interrupted flag and lock owner respect them. */
  lemma MessagesKeep(s: State, s': State, r: nat, ms: set<nat>)
    requires Orderly(s) && OnlyTouches(s, s', r, ms) && r in s.reqs && r in s'.reqs
    requires (s.reqs[r].interrupted ==> s'.reqs[r].interrupted) && s'.reqs[r].unique == s.reqs[r].unique
    requires s.reqs[r].lock.ByMessage? && s.reqs[r].lock.m !in ms ==>
               s'.reqs[r].lock == s.reqs[r].lock && (s'.reqs[r].func == s.reqs[r].func || s'.reqs[r].pc.Done?)
               && (s.reqs[r].pc.Done? ==> s'.reqs[r].pc.Done?)
    ensures forall x {:trigger MessageOk(s', x)} :: x in s'.msgs && x !in ms ==> MessageOk(s', x)
  {
    forall x | x in s'.msgs && x !in ms ensures MessageOk(s', x) {
      assert MessageOk(s, x);
    }
  }

  /** A step that moves nothing in or out of the two lists. */
  lemma ListsKeep(s: State, s': State)
    requires ListsOk(s) && s'.active == s.active && s'.pending == s.pending
    requires forall x {:trigger x in s'.reqs} {:trigger x in s.reqs} :: x in s'.reqs <==> x in s.reqs
    requires forall x {:trigger s'.reqs[x]} :: x in s'.reqs ==>
               s'.reqs[x].unique == s.reqs[x].unique && (s'.reqs[x].pc.Done? <==> s.reqs[x].pc.Done?)
    requires forall x {:trigger x in s'.msgs} {:trigger x in s.msgs} :: x in s'.msgs <==> x in s.msgs
    requires forall x {:trigger s'.msgs[x]} :: x in s'.msgs ==>
               s'.msgs[x].unique == s.msgs[x].unique && (s'.msgs[x].fate.Pending? <==> s.msgs[x].fate.Pending?)
    ensures ListsOk(s')
  {
  }

  /** A stage of fuse_req_interrupt_func, after which the request is `q`. */
  lemma RegisterStep(s: State, r: nat, q: Req)
    requires Orderly(s) && r in s.reqs && !s.reqs[r].lock.ByMessage?
    requires q.unique == s.reqs[r].unique && (q.pc.Done? <==> s.reqs[r].pc.Done?) && (s.reqs[r].interrupted ==> q.interrupted)
    requires RequestOk(SetReq(s, r, q), r)
    ensures Orderly(SetReq(s, r, q))
  {
    var s' := SetReq(s, r, q);
    OthersKeep(s, s', r, {});
    MessagesKeep(s, s', r, {});
    ListsKeep(s, s');
  }

  lemma RegisterKeeps(s: State, r: nat, e: Event)
    requires Orderly(s) && Enabled(s, e)
    requires e in [RegisterSet(r), RegisterTest(r), RegisterReturn(r), RegisterUnlock(r)] || (e.RegisterLock? && e.r == r)
    ensures Orderly(Apply(s, e))
  {
    assert RequestOk(s, r);
    RegisterStep(s, r, Apply(s, e).reqs[r]);
  }

  lemma FinishKeeps(s: State, r: nat)
    requires Orderly(s) && Enabled(s, Finish(r))
    ensures Orderly(DoFinish(s, r))
  {
    var s' := DoFinish(s, r);
    assert RequestOk(s, r);
    assert RequestOk(s', r);
    OthersKeep(s, s', r, {});
    MessagesKeep(s, s', r, {});
  }

  /** A stage of find_interrupted, in which message `m` moves on and its request becomes `q`. */
  lemma VisitStep(s: State, m: nat, at: Visit, q: Req)
    requires Orderly(s) && At(s, m)
    requires var q0 := s.reqs[s.msgs[m].fate.r];
             && (q0.lock.Free? || q0.lock == ByMessage(m)) && (q0.interrupted ==> q.interrupted)
             && q.unique == q0.unique && (q.pc.Done? <==> q0.pc.Done?)
    requires RequestOk(MoveVisit(s, m, at, q), s.msgs[m].fate.r) && MessageOk(MoveVisit(s, m, at, q), m)
    ensures Orderly(MoveVisit(s, m, at, q))
  {
    var s' := MoveVisit(s, m, at, q);
    var r := s.msgs[m].fate.r;
    OthersKeep(s, s', r, {m});
    MessagesKeep(s, s', r, {m});
    ListsKeep(s, s');
  }

  lemma VisitorsMove(s: State, m: nat, at: Visit, q: Req)
    requires At(s, m)
    ensures Visitors(MoveVisit(s, m, at, q).msgs, s.msgs[m].fate.r) == Visitors(s.msgs, s.msgs[m].fate.r)
  {
  }

  lemma VisitKeeps(s: State, m: nat, e: Event)
    requires Orderly(s) && Enabled(s, e)
    requires e in [InterruptLock(m), InterruptMark(m), InterruptTest(m), InterruptReturn(m), InterruptUnlock(m)]
    ensures Orderly(Apply(s, e))
  {
    var s' := Apply(s, e);
    var r := s.msgs[m].fate.r;
    assert RequestOk(s, r) && MessageOk(s, m);
    VisitorsMove(s, m, s'.msgs[m].fate.at, s'.reqs[r]);
    VisitStep(s, m, s'.msgs[m].fate.at, s'.reqs[r]);
  }

  /** The request that a message leaves, and the message. */
  lemma LeaveRequest(s: State, m: nat)
    requires Orderly(s) && Enabled(s, InterruptLeave(m))
    ensures RequestOk(DoLeave(s, m), s.msgs[m].fate.r) && MessageOk(DoLeave(s, m), m)
    ensures s.reqs[s.msgs[m].fate.r].lock != ByMessage(m) && OnlyTouches(s, DoLeave(s, m), s.msgs[m].fate.r, {m})
  {
    hide ListsOk;
    var s' := DoLeave(s, m);
    var r := s.msgs[m].fate.r;
    assert RequestOk(s, r) && MessageOk(s, m);
    assert m in Visitors(s.msgs, r);
    assert Visitors(s'.msgs, r) == Visitors(s.msgs, r) - {m};
  }

  lemma LeaveKeeps(s: State, m: nat)
    requires Orderly(s) && Enabled(s, InterruptLeave(m))
    ensures Orderly(DoLeave(s, m))
  {
    var s' := DoLeave(s, m);
    var r := s.msgs[m].fate.r;
    LeaveRequest(s, m);
    OthersKeep(s, s', r, {m});
    MessagesKeep(s, s', r, {m});
    ListsKeep(s, s');
  }

  lemma BounceKeeps(s: State, m: nat)
    requires Orderly(s) && Enabled(s, Bounce(m))
    ensures Orderly(Apply(s, Bounce(m)))
  {
    var s' := Apply(s, Bounce(m));
    assert MessageOk(s, m);
    OnlyMessage(s, s', m);
  }

  /** Changing the fate of a message that visits no request, before or after. */
  lemma OnlyMessage(s: State, s': State, m: nat)
    requires Orderly(s) && s'.reqs == s.reqs
    requires forall x :: x != m ==> (x in s'.msgs <==> x in s.msgs)
    requires forall x :: x != m && x in s.msgs ==> s'.msgs[x] == s.msgs[x]
    requires m in s.msgs ==> !s.msgs[m].fate.Visiting?
    requires m in s'.msgs && !s'.msgs[m].fate.Visiting?
    ensures forall x {:trigger RequestOk(s', x)} :: x in s'.reqs ==> RequestOk(s', x)
    ensures forall x {:trigger MessageOk(s', x)} :: x in s'.msgs && x != m ==> MessageOk(s', x)
  {
    forall x | x in s'.reqs ensures RequestOk(s', x) {
      assert RequestOk(s, x);
      assert Visitors(s'.msgs, x) == Visitors(s.msgs, x);
    }
    forall x | x in s'.msgs && x != m ensures MessageOk(s', x) {
      assert MessageOk(s, x);
    }
  }

  lemma VisitRequest(s: State, m: nat, unique: nat, i: nat)
    requires Orderly(s) && m !in s.msgs && i == First(s.active, RequestsNamed(s, unique)) && i < |s.active|
    ensures var r := s.active[i];
            var s' := DoInterrupt(s, m, unique);
            && r in s.reqs && RequestOk(s', r) && MessageOk(s', m) && OnlyTouches(s, s', r, {m})
            && s' == State(s.reqs[r := s.reqs[r].(ctr := s.reqs[r].ctr + 1)],
                           s.msgs[m := Message(unique, Visiting(r, Waits), 0, 0)], s.active, s.pending)
  {
    var s' := DoInterrupt(s, m, unique);
    var r := s.active[i];
    assert r in s.active && RequestOk(s, r);
    assert m !in Visitors(s.msgs, r);
    assert Visitors(s'.msgs, r) == Visitors(s.msgs, r) + {m};
  }

  lemma InterruptVisits(s: State, m: nat, unique: nat, i: nat)
    requires Orderly(s) && m !in s.msgs && i == First(s.active, RequestsNamed(s, unique)) && i < |s.active|
    ensures Orderly(DoInterrupt(s, m, unique))
  {
    var s' := DoInterrupt(s, m, unique);
    var r := s.active[i];
    VisitRequest(s, m, unique, i);
    OthersKeep(s, s', r, {m});
    MessagesKeep(s, s', r, {m});
    VisitLists(s, m, r, unique);
  }

  lemma VisitLists(s: State, m: nat, r: nat, unique: nat)
    requires ListsOk(s) && m !in s.msgs && r in s.reqs
    ensures ListsOk(State(s.reqs[r := s.reqs[r].(ctr := s.reqs[r].ctr + 1)],
                          s.msgs[m := Message(unique, Visiting(r, Waits), 0, 0)], s.active, s.pending))
  {
  }

  lemma StayLists(s: State, m: nat, unique: nat)
    requires ListsOk(s) && m !in s.msgs && First(s.active, RequestsNamed(s, unique)) == |s.active|
    ensures ListsOk(DoInterrupt(s, m, unique))
  {
    forall x | x in s.pending ensures x in MessagesFor(s, unique) <==> s.msgs[x].unique == unique { }
    forall x | x in s.active ensures x in RequestsNamed(s, unique) <==> s.reqs[x].unique == unique { }
  }

  lemma InterruptStays(s: State, m: nat, unique: nat)
    requires Orderly(s) && m !in s.msgs && First(s.active, RequestsNamed(s, unique)) == |s.active|
    ensures Orderly(DoInterrupt(s, m, unique))
  {
    var s' := DoInterrupt(s, m, unique);
    OnlyMessage(s, s', m);
    assert MessageOk(s', m);
    StayLists(s, m, unique);
  }

  /** A new request that no message visits yet; at most one pending message changes, and it visits nothing. */
  lemma ArriveFrame(s: State, s': State, r: nat, q: Req, ms: set<nat>)
    requires Orderly(s) && r !in s.reqs && s'.reqs == s.reqs[r := q] && (q == NewReq(q.unique, q.interrupted))
    requires forall x {:trigger x in s'.msgs} {:trigger x in s.msgs} :: x in s'.msgs <==> x in s.msgs
    requires forall x {:trigger s'.msgs[x]} {:trigger s.msgs[x]} :: x in s.msgs && x !in ms ==> s'.msgs[x] == s.msgs[x]
    requires forall x :: x in ms ==> x in s.msgs && !s.msgs[x].fate.Visiting? && !s'.msgs[x].fate.Visiting? && MessageOk(s', x)
    ensures forall x {:trigger RequestOk(s', x)} :: x in s'.reqs ==> RequestOk(s', x)
    ensures forall x {:trigger MessageOk(s', x)} :: x in s'.msgs ==> MessageOk(s', x)
  {
    forall x | x in s'.reqs ensures RequestOk(s', x) {
      if x == r {
        forall v | v in s.msgs ensures v !in Visitors(s'.msgs, r) { assert MessageOk(s, v); }
        assert Visitors(s'.msgs, r) == {};
      } else {
        assert RequestOk(s, x);
        assert Visitors(s'.msgs, x) == Visitors(s.msgs, x);
      }
    }
    forall x | x in s'.msgs ensures MessageOk(s', x) {
      assert MessageOk(s, x);
    }
  }

  lemma ArriveMatched(s: State, r: nat, unique: nat, i: nat)
    requires Orderly(s) && r !in s.reqs && i == First(s.pending, MessagesFor(s, unique)) && i < |s.pending|
    ensures Orderly(DoArrive(s, r, unique))
  {
    var s' := DoArrive(s, r, unique);
    var m := s.pending[i];
    assert MessageOk(s, m);
    assert MessageOk(s', m);
    ArriveFrame(s, s', r, NewReq(unique, true), {m});
    assert ListsOk(s');
  }

  lemma ArriveUnmatched(s: State, r: nat, unique: nat)
    requires Orderly(s) && r !in s.reqs && First(s.pending, MessagesFor(s, unique)) == |s.pending|
    ensures Orderly(DoArrive(s, r, unique))
  {
    var s' := DoArrive(s, r, unique);
    forall x | x in s.pending ensures s.msgs[x].unique != unique {
      assert x !in MessagesFor(s, unique);
    }
    if s.pending != [] {
      var m := s.pending[0];
      assert MessageOk(s, m);
      assert MessageOk(s', m);
      ArriveFrame(s, s', r, NewReq(unique, false), {m});
      forall x ensures x in s.pending[1..] <==> x in s.pending && x != m {
        assert s.pending == [m] + s.pending[1..];
      }
    } else {
      ArriveFrame(s, s', r, NewReq(unique, false), {});
    }
    assert ListsOk(s');
  }

  lemma StepOrderly(s: State, e: Event)
    requires Orderly(s) && Enabled(s, e)
    ensures Orderly(Apply(s, e))
  {
    match e
    case Arrive(r, u) =>
      var i := First(s.pending, MessagesFor(s, u));
      if i < |s.pending| { ArriveMatched(s, r, u, i); } else { ArriveUnmatched(s, r, u); }
    case RegisterLock(r, f) => RegisterKeeps(s, r, e);
    case RegisterSet(r) => RegisterKeeps(s, r, e);
    case RegisterTest(r) => RegisterKeeps(s, r, e);
    case RegisterReturn(r) => RegisterKeeps(s, r, e);
    case RegisterUnlock(r) => RegisterKeeps(s, r, e);
    case Finish(r) => FinishKeeps(s, r);
    case Interrupt(m, u) =>
      var i := First(s.active, RequestsNamed(s, u));
      if i < |s.active| { InterruptVisits(s, m, u, i); } else { InterruptStays(s, m, u); }
    case InterruptLock(m) => VisitKeeps(s, m, e);
    case InterruptMark(m) => VisitKeeps(s, m, e);
    case InterruptTest(m) => VisitKeeps(s, m, e);
    case InterruptReturn(m) => VisitKeeps(s, m, e);
    case InterruptUnlock(m) => VisitKeeps(s, m, e);
    case InterruptLeave(m) => LeaveKeeps(s, m);
    case Bounce(m) => BounceKeeps(s, m);
  }

  // --------------------------------------------------- who marked, who was first

  /** A step other than the ones that mark a request: what was marked by a message still is. */
  lemma MarksStay(s: State, e: Event, m: nat, r: nat)
    requires Orderly(s) && Enabled(s, e) && Marks(s, m, r)
    ensures Marks(Apply(s, e), m, r)
  {
    if e.Arrive? { ArrivalTouches(s, e.r, e.unique, m); }
  }

  lemma TwinsStay(s: State, e: Event, m: nat, n: nat)
    requires Orderly(s) && Enabled(s, e) && Twin(s, m, n)
    ensures Twin(Apply(s, e), m, n)
  {
    if e.Arrive? { ArrivalTouches(s, e.r, e.unique, n); ArrivalTouches(s, e.r, e.unique, m); }
  }

  /** An arrival changes the fate of pending messages only, and a request that is not new stays. */
  lemma ArrivalTouches(s: State, r: nat, unique: nat, m: nat)
    requires Orderly(s) && r !in s.reqs && m in s.msgs
    ensures var s' := DoArrive(s, r, unique);
            && m in s'.msgs && s'.msgs[m].unique == s.msgs[m].unique
            && (s'.msgs[m] == s.msgs[m] || (s.msgs[m].fate.Pending? && WasPending(s'.msgs[m].fate)))
  {
  }

  /** A step marks a request only in the name of a message for it. */
  lemma StepMarks(s: State, e: Event, r: nat)
    requires Orderly(s) && Enabled(s, e) && r in Apply(s, e).reqs && Apply(s, e).reqs[r].interrupted
    ensures (r in s.reqs && s.reqs[r].interrupted) || MarkedByMessage(Apply(s, e), r)
  {
    match e
    case Arrive(r1, u) =>
      var i := First(s.pending, MessagesFor(s, u));
      if r == r1 && i < |s.pending| { assert Marks(Apply(s, e), s.pending[i], r); }
    case InterruptMark(m) =>
      assert MessageOk(s, m);
      if r == s.msgs[m].fate.r { assert Marks(Apply(s, e), m, r); }
    case _ =>
  }

  lemma StepTwins(s: State, e: Event, m: nat)
    requires Orderly(s) && Enabled(s, e) && m in Apply(s, e).msgs && Apply(s, e).msgs[m].fate.Duplicate?
    ensures (m in s.msgs && s.msgs[m].fate == Apply(s, e).msgs[m].fate)
            || Twin(Apply(s, e), m, Apply(s, e).msgs[m].fate.of)
  {
    if e.Arrive? && m in s.msgs { ArrivalTouches(s, e.r, e.unique, m); }
  }

  lemma StepKeeps(s: State, e: Event)
    requires Inv(s) && Enabled(s, e)
    ensures Inv(Apply(s, e))
  {
    StepOrderly(s, e);
    var s' := Apply(s, e);
    forall r | r in s'.reqs && s'.reqs[r].interrupted ensures MarkedByMessage(s', r) {
      StepMarks(s, e, r);
      if !MarkedByMessage(s', r) {
        assert MarkedByMessage(s, r);
        var m :| Marks(s, m, r);
        MarksStay(s, e, m, r);
      }
    }
    forall m | m in s'.msgs && s'.msgs[m].fate.Duplicate? ensures Twin(s', m, s'.msgs[m].fate.of) {
      StepTwins(s, e, m);
      if m in s.msgs && s.msgs[m].fate == s'.msgs[m].fate { TwinsStay(s, e, m, s.msgs[m].fate.of); }
    }
  }

  // -------------------------------------------------------------------- runs

  lemma InitialInv()
    ensures Inv(INITIAL)
  {
  }

  ghost predicate CanRun(s: State, es: seq<Event>)
    requires Inv(s)
    decreases |es|
  {
    es == [] || (Enabled(s, es[0]) && (StepKeeps(s, es[0]); CanRun(Apply(s, es[0]), es[1..])))
  }

  /** The state after a run, in any interleaving of the threads. */
  ghost function Run(s: State, es: seq<Event>): (t: State)
    requires Inv(s) && CanRun(s, es)
    ensures Inv(t)
    decreases |es|
  {
    if es == [] then s else
      StepKeeps(s, es[0]);
      Run(Apply(s, es[0]), es[1..])
  }

  ghost predicate Reachable(es: seq<Event>)
    ensures Reachable(es) ==> Inv(INITIAL)
  {
    InitialInv();
    CanRun(INITIAL, es)
  }

  /**
    Whichever came first, registration or interrupt: once nobody is inside the request lock, the
    registered callback of an interrupted request has been called since it was registered, and no other
    callback after it.
   */
  lemma InterruptedIsCalled(es: seq<Event>, r: nat)
    requires Reachable(es) && r in Run(INITIAL, es).reqs
    ensures var q := Run(INITIAL, es).reqs[r];
            q.lock.Free? && q.interrupted && q.func.Some? ==> q.called == q.func
  {
    assert RequestOk(Run(INITIAL, es), r);
  }

  predicate RunsCallback(s: State, r: nat, who: Owner)
    requires r in s.reqs
  {
    match who
    case Free => false
    case ByWorker => s.reqs[r].pc.RegCalls?
    case ByMessage(m) => m in s.msgs && s.msgs[m].fate.Visiting? && s.msgs[m].fate.r == r && s.msgs[m].fate.at.Calls?
  }

  /** Callbacks of one request never overlap: only the holder of its lock runs one. */
  lemma CallbacksExclude(es: seq<Event>, r: nat, one: Owner, two: Owner)
    requires Reachable(es) && r in Run(INITIAL, es).reqs
    requires RunsCallback(Run(INITIAL, es), r, one) && RunsCallback(Run(INITIAL, es), r, two)
    ensures one == two == Run(INITIAL, es).reqs[r].lock
  {
    var s := Run(INITIAL, es);
    assert RequestOk(s, r);
    if one.ByMessage? { assert MessageOk(s, one.m); }
    if two.ByMessage? { assert MessageOk(s, two.m); }
  }

  /** No thread runs or is about to run a callback of request `r`. */
  ghost predicate Quiet(s: State, r: nat)
  {
    && r in s.reqs && s.reqs[r].func.None? && !s.reqs[r].pc.RegCalls?
    && (s.reqs[r].pc.RegHolds? || s.reqs[r].pc.RegTest? ==> s.reqs[r].pc.f.None?)
    && (s.reqs[r].lock.ByMessage? && s.reqs[r].lock.m in s.msgs && s.msgs[s.reqs[r].lock.m].fate.Visiting? ==>
          var at := s.msgs[s.reqs[r].lock.m].fate.at; !at.Calls? && (at.Marked? ==> at.f.None?))
  }

  lemma QuietMeans(s: State, r: nat, who: Owner)
    requires Inv(s) && Quiet(s, r)
    ensures !RunsCallback(s, r, who)
  {
    if who.ByMessage? && who.m in s.msgs { assert MessageOk(s, who.m); }
  }

  lemma QuietVisit(s: State, e: Event, r: nat, m: nat)
    requires Inv(s) && Enabled(s, e) && Quiet(s, r)
    requires e in [InterruptLock(m), InterruptMark(m), InterruptTest(m), InterruptReturn(m), InterruptUnlock(m), InterruptLeave(m)]
    ensures Quiet(Apply(s, e), r) && Apply(s, e).reqs[r].calls == s.reqs[r].calls
  {
    assert RequestOk(s, r) && MessageOk(s, m);
    var s' := Apply(s, e);
    if s.msgs[m].fate.r != r {
      assert s'.reqs[r] == s.reqs[r];
      assert s.reqs[r].lock != ByMessage(m);
    }
  }

  lemma QuietStep(s: State, e: Event, r: nat)
    requires Inv(s) && Enabled(s, e) && Quiet(s, r) && !(e.RegisterLock? && e.r == r && e.f.Some?)
    ensures Quiet(Apply(s, e), r) && Apply(s, e).reqs[r].calls == s.reqs[r].calls
  {
    hide ListsOk, Accountable, Visitors, RequestsNamed, MessagesFor, First;
    if e.InterruptLock? || e.InterruptMark? || e.InterruptTest? || e.InterruptReturn? || e.InterruptUnlock? || e.InterruptLeave? {
      QuietVisit(s, e, r, e.m);
    } else {
      assert RequestOk(s, r);
    }
  }

  /** From then on no callback of the request is called, whatever arrives, until one is registered again. */
  lemma {:induction false} QuietStays(s: State, es: seq<Event>, r: nat)
    requires Inv(s) && CanRun(s, es) && Quiet(s, r)
    requires forall i :: 0 <= i < |es| ==> !(es[i].RegisterLock? && es[i].r == r && es[i].f.Some?)
    ensures Quiet(Run(s, es), r) && Run(s, es).reqs[r].calls == s.reqs[r].calls
    decreases |es|
  {
    if es != [] {
      QuietStep(s, es[0], r);
      StepKeeps(s, es[0]);
      QuietStays(Apply(s, es[0]), es[1..], r);
    }
  }

  /** The thread serving `r` is inside fuse_req_interrupt_func(req, NULL, NULL). */
  predicate Unregistering(s: State, r: nat)
  {
    && r in s.reqs
    && match s.reqs[r].pc
       case RegHolds(f) => f.None?
       case RegTest(f) => f.None? && s.reqs[r].func.None?
       case RegUnlocks => s.reqs[r].func.None?
       case _ => false
  }

  /** Whatever else happens, it stays there until it releases the request lock. */
  lemma UnregisterStep(s: State, e: Event, r: nat)
    requires Inv(s) && Enabled(s, e) && Unregistering(s, r)
    ensures if e == RegisterUnlock(r) then Quiet(Apply(s, e), r) else Unregistering(Apply(s, e), r)
  {
    hide ListsOk, Accountable, Visitors, RequestsNamed, MessagesFor, First;
    assert RequestOk(s, r);
    if e.InterruptLock? || e.InterruptMark? || e.InterruptTest? || e.InterruptReturn? || e.InterruptUnlock? || e.InterruptLeave? {
      assert MessageOk(s, e.m);
    }
  }

  lemma {:induction false} UnregisterRun(s: State, es: seq<Event>, r: nat)
    requires Inv(s) && CanRun(s, es) && Unregistering(s, r) && es != [] && es[|es| - 1] == RegisterUnlock(r)
    requires forall i :: 0 <= i < |es| - 1 ==> es[i] != RegisterUnlock(r)
    ensures Quiet(Run(s, es), r)
    decreases |es|
  {
    hide ListsOk, RequestOk, MessageOk, Accountable, Apply, Unregistering, Quiet, Enabled;
    UnregisterStep(s, es[0], r);
    StepKeeps(s, es[0]);
    if |es| > 1 { UnregisterRun(Apply(s, es[0]), es[1..], r); }
  }

  /**
    Once fuse_req_interrupt_func(req, NULL, NULL) has returned, that is, from its release of the request
    lock on, no thread runs a callback of the request and none is called, whatever went on during the
    call (`es`) and goes on afterwards (`later`), until one is registered again.
   */
  lemma UnregisteredIsQuiet(s: State, es: seq<Event>, later: seq<Event>, r: nat)
    requires Inv(s) && CanRun(s, es) && |es| > 1
    requires es[0] == RegisterLock(r, None) && es[|es| - 1] == RegisterUnlock(r)
    requires forall i :: 0 <= i < |es| - 1 ==> es[i] != RegisterUnlock(r)
    requires CanRun(Run(s, es), later)
    requires forall i :: 0 <= i < |later| ==> !(later[i].RegisterLock? && later[i].r == r && later[i].f.Some?)
    ensures var before, after := Run(s, es), Run(Run(s, es), later);
            && r in before.reqs && r in after.reqs && after.reqs[r].calls == before.reqs[r].calls
            && forall who :: !RunsCallback(before, r, who) && !RunsCallback(after, r, who)
  {
    StepKeeps(s, es[0]);
    UnregisterRun(Apply(s, es[0]), es[1..], r);
    var before := Run(s, es);
    QuietStays(before, later, r);
    forall who ensures !RunsCallback(before, r, who) && !RunsCallback(Run(before, later), r, who) {
      QuietMeans(before, r, who);
      QuietMeans(Run(before, later), r, who);
    }
  }

  /** The request a step reads or writes. */
  function Uses(s: State, e: Event): Option<nat>
    requires ListsOk(s) && Enabled(s, e)
  {
    match e
    case Arrive(r, u) => None
    case RegisterLock(r, f) => Some(r)
    case RegisterSet(r) => Some(r)
    case RegisterTest(r) => Some(r)
    case RegisterReturn(r) => Some(r)
    case RegisterUnlock(r) => Some(r)
    case Finish(r) => Some(r)
    case Interrupt(m, u) =>
      var i := First(s.active, RequestsNamed(s, u));
      if i < |s.active| then Some(s.active[i]) else None
    case InterruptLock(m) => Some(s.msgs[m].fate.r)
    case InterruptMark(m) => Some(s.msgs[m].fate.r)
    case InterruptTest(m) => Some(s.msgs[m].fate.r)
    case InterruptReturn(m) => Some(s.msgs[m].fate.r)
    case InterruptUnlock(m) => Some(s.msgs[m].fate.r)
    case InterruptLeave(m) => Some(s.msgs[m].fate.r)
    case Bounce(m) => None
  }

  /**
    A request object is destroyed exactly when it has been answered and no interrupt visits it, at
    most once, and no later step of any thread uses it.
   */
  lemma DestroyedOnce(es: seq<Event>, r: nat)
    requires Reachable(es) && r in Run(INITIAL, es).reqs
    ensures var s := Run(INITIAL, es);
            && s.reqs[r].destroyed == (if s.reqs[r].pc.Done? && Visitors(s.msgs, r) == {} then 1 else 0)
            && forall e :: Enabled(s, e) && Uses(s, e) == Some(r) ==> s.reqs[r].destroyed == 0
  {
    var s := Run(INITIAL, es);
    assert RequestOk(s, r);
    forall e | Enabled(s, e) && Uses(s, e) == Some(r) ensures s.reqs[r].destroyed == 0 {
      if e.Interrupt? {
        assert r in s.active;
      } else if !(r in s.reqs && !s.reqs[r].pc.Done?) {
        assert e.m in Visitors(s.msgs, r);
      }
    }
  }

  predicate Settled(fate: Fate)
  {
    fate.Applied? || fate.Duplicate? || fate.Bounced?
  }

  /**
    What becomes of an INTERRUPT message.  Applied: the request it is for was marked interrupted, and no
    request is marked but through a message for it.  Dropped: another message for the same request was
    pending.  Bounced: it was answered EAGAIN, once.  Its own request object is destroyed exactly when
    it is settled.
   */
  lemma MessageAccounted(es: seq<Event>, m: nat)
    requires Reachable(es) && m in Run(INITIAL, es).msgs
    ensures var s := Run(INITIAL, es);
            var msg := s.msgs[m];
            && (msg.fate.Applied? ==>
                  msg.fate.r in s.reqs && s.reqs[msg.fate.r].unique == msg.unique && s.reqs[msg.fate.r].interrupted)
            && (msg.fate.Duplicate? ==> Twin(s, m, msg.fate.of))
            && (msg.fate.Pending? <==> m in s.pending)
            && msg.replies == (if msg.fate.Bounced? then 1 else 0)
            && msg.destroyed == (if Settled(msg.fate) then 1 else 0)
    ensures var s := Run(INITIAL, es);
            forall r :: r in s.reqs ==> (s.reqs[r].interrupted <==> exists n :: Marks(s, n, r))
  {
    var s := Run(INITIAL, es);
    assert MessageOk(s, m);
    forall r | r in s.reqs ensures s.reqs[r].interrupted <==> exists n :: Marks(s, n, r) {
      if s.reqs[r].interrupted { assert MarkedByMessage(s, r); }
      forall n | Marks(s, n, r) ensures s.reqs[r].interrupted { assert MessageOk(s, n); }
    }
  }

  /** Where an INTERRUPT message goes: to the request it is for, or it is dropped for one that waits, or it waits. */
  lemma MessageSorted(s: State, m: nat, unique: nat)
    requires Inv(s) && m !in s.msgs
    ensures var fate := DoInterrupt(s, m, unique).msgs[m].fate;
            && (fate.Visiting? ==> fate.r in s.active && s.reqs[fate.r].unique == unique)
            && (fate.Duplicate? ==> fate.of in s.pending && s.msgs[fate.of].unique == unique)
            && (fate.Visiting? <==> exists r :: r in s.active && s.reqs[r].unique == unique)
            && (fate.Pending? <==> (forall r :: r in s.active ==> s.reqs[r].unique != unique)
                                   && (forall n :: n in s.pending ==> s.msgs[n].unique != unique))
            && (fate.Visiting? || fate.Duplicate? || fate.Pending?)
  {
    forall x | x in s.pending ensures x in MessagesFor(s, unique) <==> s.msgs[x].unique == unique { }
    forall x | x in s.active ensures x in RequestsNamed(s, unique) <==> s.reqs[x].unique == unique { }
  }

  lemma SettledStep(s: State, e: Event, m: nat)
    requires Inv(s) && Enabled(s, e) && m in s.msgs && Settled(s.msgs[m].fate)
    ensures m in Apply(s, e).msgs && Apply(s, e).msgs[m] == s.msgs[m]
  {
    if e.Arrive? { ArrivalTouches(s, e.r, e.unique, m); }
  }

  /** What is settled stays so: every message has one fate in the end, never a second. */
  lemma {:induction false} SettledStays(s: State, es: seq<Event>, m: nat)
    requires Inv(s) && CanRun(s, es) && m in s.msgs && Settled(s.msgs[m].fate)
    ensures m in Run(s, es).msgs && Run(s, es).msgs[m] == s.msgs[m]
    decreases |es|
  {
    hide ListsOk, RequestOk, MessageOk, Accountable, Apply, Enabled;
    if es != [] {
      SettledStep(s, es[0], m);
      StepKeeps(s, es[0]);
      SettledStays(Apply(s, es[0]), es[1..], m);
    }
  }

  /** No two pending interrupts are for the same request, and none for a request that is being served. */
  lemma PendingIsFresh(es: seq<Event>, m: nat, n: nat, r: nat)
    requires Reachable(es)
    ensures var s := Run(INITIAL, es);
            && (m in s.pending && n in s.pending && m != n ==> s.msgs[m].unique != s.msgs[n].unique)
            && (m in s.pending && r in s.active ==> s.msgs[m].unique != s.reqs[r].unique)
  {
  }

  /**
    A request that arrives takes one pending interrupt off the list: its own, which it then is
    interrupted by, or else the oldest, which is bounced.
   */
  lemma ArrivalTakesOne(s: State, r: nat, unique: nat)
    requires Inv(s) && r !in s.reqs
    ensures var s' := DoArrive(s, r, unique);
            && (s.pending != [] ==> exists m ::
                  && m in s.pending && (forall n :: n in s'.pending <==> n in s.pending && n != m)
                  && (if s.msgs[m].unique == unique then s'.msgs[m].fate == Applied(r)
                      else m == s.pending[0] && s'.msgs[m].fate == Bouncing))
            && (s'.reqs[r].interrupted <==> exists m :: m in s.pending && s.msgs[m].unique == unique)
  {
    var i := First(s.pending, MessagesFor(s, unique));
    forall x | x in s.pending ensures x in MessagesFor(s, unique) <==> s.msgs[x].unique == unique { }
    if s.pending != [] {
      var m := if i < |s.pending| then s.pending[i] else s.pending[0];
      assert s.pending == [s.pending[0]] + s.pending[1..];
      var s' := DoArrive(s, r, unique);
      assert m in s.pending && (forall n :: n in s'.pending <==> n in s.pending && n != m);
    }
  }

  // ------------------------------------------------------- the code's two loops

  /** fuse_ll: the two lists and the objects on them, as the critical sections change them. */
  class Session {
    var reqs: map<nat, Req>
    var msgs: map<nat, Message>
    var active: seq<nat>
    var pending: seq<nat>

    ghost function View(): State
      reads this
    {
      State(reqs, msgs, active, pending)
    }

    /** check_interrupt and the listing of the request; returns the interrupt to be answered with EAGAIN. */
    method CheckInterrupt(r: nat, unique: nat) returns (bounced: Option<nat>)
      requires Inv(View()) && r !in reqs
      modifies this
      ensures View() == Apply(old(View()), Arrive(r, unique)) && Inv(View())
      ensures bounced.Some? ==> bounced.value in msgs && msgs[bounced.value].fate == Bouncing
    {
      hide RequestOk, MessageOk, Accountable, Without, First, MessagesFor;
      StepKeeps(View(), Arrive(r, unique));
      var i := 0;
      while i < |pending|
        invariant i <= |pending| && View() == old(View())
        invariant forall j :: 0 <= j < i ==> msgs[pending[j]].unique != unique
      {
        var m := pending[i];
        if msgs[m].unique == unique {
          FirstPending(View(), unique, i);
          reqs := reqs[r := NewReq(unique, true)];
          msgs := msgs[m := msgs[m].(fate := Applied(r), destroyed := msgs[m].destroyed + 1)];
          pending := Without(pending, m);
          active := active + [r];
          return None;
        }
        i := i + 1;
      }
      FirstPending(View(), unique, |pending|);
      reqs := reqs[r := NewReq(unique, false)];
      active := active + [r];
      if pending != [] {
        var m := pending[0];
        msgs := msgs[m := msgs[m].(fate := Bouncing)];
        pending := pending[1..];
        return Some(m);
      }
      return None;
    }

    /** do_interrupt and find_interrupted, up to where the session lock is first released. */
    method FindInterrupted(m: nat, unique: nat)
      requires Inv(View()) && m !in msgs
      modifies this
      ensures View() == Apply(old(View()), Interrupt(m, unique)) && Inv(View())
    {
      hide RequestOk, MessageOk, Accountable, First, MessagesFor, RequestsNamed;
      StepKeeps(View(), Interrupt(m, unique));
      var i := 0;
      while i < |active|
        invariant i <= |active| && View() == old(View())
        invariant forall j :: 0 <= j < i ==> reqs[active[j]].unique != unique
      {
        var r := active[i];
        if reqs[r].unique == unique {
          FirstActive(View(), unique, i);
          reqs := reqs[r := reqs[r].(ctr := reqs[r].ctr + 1)];
          msgs := msgs[m := Message(unique, Visiting(r, Waits), 0, 0)];
          return;
        }
        i := i + 1;
      }
      FirstActive(View(), unique, |active|);
      i := 0;
      while i < |pending|
        invariant i <= |pending| && View() == old(View())
        invariant forall j :: 0 <= j < i ==> msgs[pending[j]].unique != unique
      {
        if msgs[pending[i]].unique == unique {
          FirstPending(View(), unique, i);
          msgs := msgs[m := Message(unique, Duplicate(pending[i]), 0, 1)];
          return;
        }
        i := i + 1;
      }
      FirstPending(View(), unique, |pending|);
      msgs := msgs[m := Message(unique, Pending, 0, 0)];
      pending := pending + [m];
    }
  }

  lemma FirstIs(list: seq<nat>, wanted: set<nat>, i: nat)
    requires i <= |list| && (i < |list| ==> list[i] in wanted) && forall j :: 0 <= j < i ==> list[j] !in wanted
    ensures First(list, wanted) == i
  {
  }

  lemma FirstPending(s: State, unique: nat, i: nat)
    requires ListsOk(s) && i <= |s.pending|
    requires forall j :: 0 <= j < |s.pending| ==> s.pending[j] in s.msgs
    requires forall j :: 0 <= j < i ==> s.msgs[s.pending[j]].unique != unique
    requires i < |s.pending| ==> s.msgs[s.pending[i]].unique == unique
    ensures First(s.pending, MessagesFor(s, unique)) == i
  {
    FirstIs(s.pending, MessagesFor(s, unique), i);
  }

  lemma FirstActive(s: State, unique: nat, i: nat)
    requires ListsOk(s) && i <= |s.active|
    requires forall j :: 0 <= j < |s.active| ==> s.active[j] in s.reqs
    requires forall j :: 0 <= j < i ==> s.reqs[s.active[j]].unique != unique
    requires i < |s.active| ==> s.reqs[s.active[i]].unique == unique
    ensures First(s.active, RequestsNamed(s, unique)) == i
  {
    FirstIs(s.active, RequestsNamed(s, unique), i);
  }
}
