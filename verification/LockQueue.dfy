/**
  The queue of requests waiting for a path lock, and what one wake-up pass does to it.
  A waiter that is granted or refused for good leaves the queue in the same step.
 */
module LockQueue {
  import opened Wrappers
  import opened PathTree
  import opened TreeOps
  import opened PathLocks

  /** Lock words in the tree together with the holds they stand for. */
  datatype Locks = Locks(nodes: Tree, holds: Holds)

  /** A queue element: a forget waiting for one node, or a request waiting for one or two paths. */
  datatype Waiter =
    | ForgetWaiter(node: Ino, n: nat)
    | PathWaiter(first: PathReq, second: Option<PathReq>, held1: Option<nat>, held2: Option<nat>)
  {
    /** Both paths (or the only one) are locked. */
    predicate Complete()
    {
      PathWaiter? && held1.Some? && (held2.Some? || second.None?)
    }

    predicate HoldsNothing()
    {
      PathWaiter? ==> held1.None? && held2.None?
    }

    /** How many more holds the waiter may come to own. */
    function Need(): nat
    {
      if ForgetWaiter? then 0
      else (if held1.None? then 1 else 0) + (if second.Some? && held2.None? then 1 else 0)
    }
  }

  /** What becomes of a waiter: it keeps waiting, it goes on with its holds, or it fails (ENOENT). */
  datatype Verdict = Waiting(w: Waiter) | Served(handles: set<nat>) | Refused

  /** The handles a waiter keeps. */
  function Handles(h1: Option<nat>, h2: Option<nat>): set<nat>
  {
    (if h1.Some? then {h1.value} else {}) + (if h2.Some? then {h2.value} else {})
  }

  function HandlesOf(w: Waiter): set<nat>
  {
    if w.PathWaiter? then Handles(w.held1, w.held2) else {}
  }

  function TotalNeed(q: seq<Waiter>): nat
  {
    if q == [] then 0 else q[0].Need() + TotalNeed(q[1..])
  }

  lemma {:induction false} TotalNeedAppend(a: seq<Waiter>, b: seq<Waiter>)
    ensures TotalNeed(a + b) == TotalNeed(a) + TotalNeed(b)
  {
    if a == [] { assert a + b == b; }
    else {
      assert (a + b)[1..] == a[1..] + b;
      TotalNeedAppend(a[1..], b);
    }
  }

  // -------------------------------------------------------------- invariants

  /** The kernel keeps the start node of a request, and the node it is about to write-lock, looked up. */
  ghost predicate ReqKnown(t: Tree, req: PathReq)
  {
    Known(t, req.start) && (WriteNode(t, req).Some? ==> Known(t, WriteNode(t, req).value))
  }

  ghost predicate WaiterKnown(t: Tree, w: Waiter)
  {
    w.PathWaiter? ==> ReqKnown(t, w.first) && (w.second.Some? ==> ReqKnown(t, w.second.value))
  }

  /** A handle kept by a waiter is a live hold on the path it asked for. */
  ghost predicate HandleFor(hs: Holds, h: Option<nat>, req: PathReq)
  {
    h.Some? ==> h.value < |hs| && hs[h.value].Some? && hs[h.value].value.req == req
  }

  ghost predicate WaiterStands(hs: Holds, w: Waiter)
  {
    w.PathWaiter? ==>
      && HandleFor(hs, w.held1, w.first)
      && (w.second.Some? ==> HandleFor(hs, w.held2, w.second.value))
      && (w.second.None? ==> w.held2.None?)
      && (w.held1.Some? ==> w.held1 != w.held2)
  }

  /** Only the head of the queue ever waits holding a path, and then only one of its two. */
  ghost predicate OnlyHeadHolds(hs: Holds, q: seq<Waiter>)
  {
    forall i :: 0 <= i < |q| ==>
      WaiterStands(hs, q[i]) && !q[i].Complete() && (i > 0 ==> q[i].HoldsNothing())
  }

  ghost predicate LocksOk(k: Locks)
  {
    Forest(k.nodes) && LocksMatch(k.nodes, k.holds)
  }

  // ---------------------------------------------------------- try and release

  /** try_get_path, recording the hold when it is granted. */
  ghost function TryHold(k: Locks, req: PathReq): (r: (Locks, Option<nat>, Outcome))
    requires Forest(k.nodes) && req.start in k.nodes
    ensures SameButLocks(k.nodes, r.0.nodes)
    ensures r.2 == Granted <==> r.1.Some?
  {
    assert HasLineage(k.nodes, req.start);
    var (t, o) := TryLock(k.nodes, req);
    if o == Granted then (Locks(t, k.holds + [Some(NewHold(k.nodes, req))]), Some(|k.holds|), o)
    else (Locks(t, k.holds), None, o)
  }

  /** unlock_path on a hold, if there is one. */
  ghost function Drop(k: Locks, h: Option<nat>): (r: Locks)
    requires h.Some? ==> h.value < |k.holds| && k.holds[h.value].Some? && LocksMatch(k.nodes, k.holds)
    ensures SameButLocks(k.nodes, r.nodes)
  {
    if h.None? then k
    else
      assert HoldStands(k.nodes, k.holds[h.value].value);
      Locks(Unlock(k.nodes, k.holds[h.value].value), k.holds[h.value := None])
  }

  lemma SameForest(t: Tree, t': Tree)
    requires Forest(t) && SameButLocks(t, t')
    ensures Forest(t')
  {
    SameLinks(t, t');
  }

  lemma SameKnown(t: Tree, t': Tree, req: PathReq)
    requires Forest(t) && SameButLocks(t, t')
    ensures WriteNode(t', req) == WriteNode(t, req)
    ensures ReqKnown(t', req) == ReqKnown(t, req)
  {
    SameForest(t, t');
    var l := Link(req.start, req.name);
    if Lookup(t, l).Some? { LookupFinds(t', Lookup(t, l).value); }
    if Lookup(t', l).Some? { LookupFinds(t, Lookup(t', l).value); }
  }

  lemma TryHoldKeeps(k: Locks, req: PathReq)
    requires LocksOk(k) && ReqKnown(k.nodes, req) && Live(k.holds) + 1 < INT_MAX
    ensures var (k', h, o) := TryHold(k, req);
      && LocksOk(k') && HandleFor(k'.holds, h, req)
      && k.holds <= k'.holds
      && Live(k'.holds) == Live(k.holds) + (if h.Some? then 1 else 0)
      && (h.Some? ==> h.value == |k.holds| && k'.holds[h.value] == Some(NewHold(k.nodes, req)))
  {
    var (k', h, o) := TryHold(k, req);
    SameForest(k.nodes, k'.nodes);
    if o == Granted {
      GrantAddsHold(k.nodes, k.holds, req);
      assert k'.holds[..|k.holds|] == k.holds;
    } else {
      RefusedChangesOnlyWaiterMark(k.nodes, k.holds, req);
    }
  }

  lemma DropKeeps(k: Locks, h: Option<nat>)
    requires LocksOk(k) && (h.Some? ==> h.value < |k.holds| && k.holds[h.value].Some?)
    ensures LocksOk(Drop(k, h))
    ensures Live(Drop(k, h).holds) == Live(k.holds) - if h.Some? then 1 else 0
    ensures |Drop(k, h).holds| == |k.holds|
    ensures forall i :: 0 <= i < |k.holds| && Some(i) != h ==> Drop(k, h).holds[i] == k.holds[i]
  {
    if h.Some? {
      ReleaseRemovesHold(k.nodes, k.holds, h.value);
      LiveUpdate(k.holds, h.value);
    }
    SameForest(k.nodes, Drop(k, h).nodes);
  }

  // ------------------------------------------------------------------ wake-up

  /** The live holds. */
  ghost function LiveSet(hs: Holds): set<nat>
  {
    set i: nat | i < |hs| && hs[i].Some?
  }

  ghost predicate Visitable(k: Locks, w: Waiter)
  {
    && LocksOk(k) && WaiterStands(k.holds, w) && WaiterKnown(k.nodes, w)
    && Live(k.holds) + w.Need() < INT_MAX
  }

  /** Waiter `w`, standing in `k`, has become `w'` in `k'` by locking or unlocking some of its own paths. */
  ghost predicate Progress(k: Locks, w: Waiter, k': Locks, w': Waiter)
  {
    && SameButLocks(k.nodes, k'.nodes)
    && w.PathWaiter? && w'.PathWaiter? && w'.first == w.first && w'.second == w.second
    && Visitable(k', w')
    && Live(k'.holds) + w'.Need() == Live(k.holds) + w.Need()
    && |k.holds| <= |k'.holds|
    && (forall i :: 0 <= i < |k.holds| && i !in HandlesOf(w) ==> k'.holds[i] == k.holds[i])
    && (forall i :: i in HandlesOf(w') ==> i in HandlesOf(w) || i >= |k.holds|)
    && LiveSet(k'.holds) == LiveSet(k.holds) - HandlesOf(w) + HandlesOf(w')
  }

  lemma ProgressTrans(k: Locks, w: Waiter, k1: Locks, w1: Waiter, k2: Locks, w2: Waiter)
    requires Progress(k, w, k1, w1) && Progress(k1, w1, k2, w2)
    ensures Progress(k, w, k2, w2)
  {
    forall i | i in HandlesOf(w1) ensures i !in LiveSet(k.holds) - HandlesOf(w) { }
    assert LiveSet(k2.holds) == LiveSet(k.holds) - HandlesOf(w) + HandlesOf(w2);
  }

  lemma ProgressSelf(k: Locks, w: Waiter)
    requires Visitable(k, w) && w.PathWaiter?
    ensures Progress(k, w, k, w)
  {
    assert HandlesOf(w) <= LiveSet(k.holds);
  }

  /** Tries the first path, unless it is already held. */
  ghost function LockFirst(k: Locks, w: Waiter): (r: (Locks, Waiter, Outcome))
    requires Visitable(k, w) && w.PathWaiter?
  {
    if w.held1.Some? then (k, w, Granted)
    else var (k1, h, o) := TryHold(k, w.first); (k1, w.(held1 := h), o)
  }

  /** Tries the second path, unless it is already held or there is none. */
  ghost function LockSecond(k: Locks, w: Waiter): (r: (Locks, Waiter, Outcome))
    requires Visitable(k, w) && w.PathWaiter?
  {
    if w.held2.Some? || w.second.None? then (k, w, Granted)
    else var (k1, h, o) := TryHold(k, w.second.value); (k1, w.(held2 := h), o)
  }

  lemma LockFirstKeeps(k: Locks, w: Waiter)
    requires Visitable(k, w) && w.PathWaiter?
    ensures var (k1, w1, o) := LockFirst(k, w);
            Progress(k, w, k1, w1) && (o == Granted <==> w1.held1.Some?)
  {
    hide SameButLocks, Forest, LocksMatch, LiveSet, Live, TryHold;
    ProgressSelf(k, w);
    if w.held1.None? {
      TryHoldKeeps(k, w.first);
      TriedProgress(k, w, w.first);
      SameKnown(k.nodes, TryHold(k, w.first).0.nodes, w.first);
      if w.second.Some? { SameKnown(k.nodes, TryHold(k, w.first).0.nodes, w.second.value); }
    }
  }

  lemma LockSecondKeeps(k: Locks, w: Waiter)
    requires Visitable(k, w) && w.PathWaiter?
    ensures var (k1, w1, o) := LockSecond(k, w);
            Progress(k, w, k1, w1) && (o == Granted <==> w1.held2.Some? || w1.second.None?)
            && w1.held1 == w.held1
  {
    hide SameButLocks, Forest, LocksMatch, LiveSet, Live, TryHold;
    ProgressSelf(k, w);
    if !(w.held2.Some? || w.second.None?) {
      TryHoldKeeps(k, w.second.value);
      TriedProgress(k, w, w.second.value);
      SameKnown(k.nodes, TryHold(k, w.second.value).0.nodes, w.first);
      SameKnown(k.nodes, TryHold(k, w.second.value).0.nodes, w.second.value);
    }
  }

  /** A try adds at most one hold, its own, at a fresh handle. */
  lemma TriedProgress(k: Locks, w: Waiter, req: PathReq)
    requires LocksOk(k) && ReqKnown(k.nodes, req) && Live(k.holds) + 1 < INT_MAX
    requires WaiterStands(k.holds, w)
    ensures var (k1, h, o) := TryHold(k, req);
      && LiveSet(k1.holds) == LiveSet(k.holds) + (if h.Some? then {h.value} else {})
      && (h.Some? ==> h.value == |k.holds|)
      && WaiterStands(k1.holds, w) && HandlesOf(w) <= LiveSet(k.holds)
  {
    hide SameButLocks, Forest, LocksMatch, Live;
    TryHoldKeeps(k, req);
    var (k1, h, o) := TryHold(k, req);
    assert k1.holds[..|k.holds|] == k.holds;
  }

  /** queue_element_unlock */
  ghost function DropAll(k: Locks, w: Waiter): (r: Locks)
    requires LocksOk(k) && WaiterStands(k.holds, w) && w.PathWaiter?
  {
    DropKeeps(k, w.held1);
    Drop(Drop(k, w.held1), w.held2)
  }

  lemma DropFirstKeeps(k: Locks, w: Waiter)
    requires Visitable(k, w) && w.PathWaiter?
    ensures Progress(k, w, Drop(k, w.held1), w.(held1 := None))
  {
    var k1 := Drop(k, w.held1);
    DropKeeps(k, w.held1);
    SameKnown(k.nodes, k1.nodes, w.first);
    if w.second.Some? { SameKnown(k.nodes, k1.nodes, w.second.value); }
    assert LiveSet(k1.holds) == LiveSet(k.holds) - HandlesOf(w) + HandlesOf(w.(held1 := None));
  }

  lemma DropSecondKeeps(k: Locks, w: Waiter)
    requires Visitable(k, w) && w.PathWaiter?
    ensures Progress(k, w, Drop(k, w.held2), w.(held2 := None))
  {
    var k1 := Drop(k, w.held2);
    DropKeeps(k, w.held2);
    SameKnown(k.nodes, k1.nodes, w.first);
    if w.second.Some? { SameKnown(k.nodes, k1.nodes, w.second.value); }
    assert LiveSet(k1.holds) == LiveSet(k.holds) - HandlesOf(w) + HandlesOf(w.(held2 := None));
  }

  lemma DropAllKeeps(k: Locks, w: Waiter)
    requires Visitable(k, w) && w.PathWaiter?
    ensures Progress(k, w, DropAll(k, w), w.(held1 := None, held2 := None))
  {
    var w1 := w.(held1 := None);
    DropKeeps(k, w.held1);
    DropFirstKeeps(k, w);
    DropSecondKeeps(Drop(k, w.held1), w1);
    ProgressTrans(k, w, Drop(k, w.held1), w1, DropAll(k, w), w1.(held2 := None));
  }

  /** The second half of a visit, once the first path has not failed for good. */
  ghost function WakeRest(k: Locks, w: Waiter, first: bool): (r: (Locks, Verdict))
    requires Visitable(k, w) && w.PathWaiter?
  {
    var (k2, w2, o2) := LockSecond(k, w);
    LockSecondKeeps(k, w);
    if o2 == NoEntry then (DropAll(k2, w2), Refused)
    else if w2.Complete() then (k2, Served(HandlesOf(w2)))
    else if first then (k2, Waiting(w2))
    else (DropAll(k2, w2), Waiting(w2.(held1 := None, held2 := None)))
  }

  /** One visit of queue_element_wakeup. */
  ghost function WakeOne(k: Locks, w: Waiter, first: bool): (r: (Locks, Verdict))
    requires Visitable(k, w)
  {
    if w.ForgetWaiter? then (k, Waiting(w))
    else
      var (k1, w1, o1) := LockFirst(k, w);
      LockFirstKeeps(k, w);
      if o1 == NoEntry then (DropAll(k1, w1), Refused) else WakeRest(k1, w1, first)
  }

  /**
    What a visit may do: the waiter is served with all its paths locked, refused with none, or keeps
    waiting - holding something only as the head of the queue, and not everything.
   */
  ghost predicate Accounted(k: Locks, w: Waiter, first: bool, k': Locks, v: Verdict)
  {
    match v
    case Waiting(w') =>
      if w.ForgetWaiter? then w' == w && k' == k
      else Progress(k, w, k', w') && !w'.Complete() && (first || w'.HoldsNothing())
    case Served(own) =>
      exists w' :: Progress(k, w, k', w') && w'.Complete() && own == HandlesOf(w')
    case Refused =>
      w.PathWaiter? && Progress(k, w, k', w.(held1 := None, held2 := None))
  }

  lemma AccountedAfter(k: Locks, w: Waiter, k1: Locks, w1: Waiter, first: bool, k': Locks, v: Verdict)
    requires Progress(k, w, k1, w1) && Accounted(k1, w1, first, k', v)
    ensures Accounted(k, w, first, k', v)
  {
    match v
    case Waiting(w') => ProgressTrans(k, w, k1, w1, k', w');
    case Served(own) =>
      var w' :| Progress(k1, w1, k', w') && w'.Complete() && own == HandlesOf(w');
      ProgressTrans(k, w, k1, w1, k', w');
    case Refused => ProgressTrans(k, w, k1, w1, k', w1.(held1 := None, held2 := None));
  }

  lemma WakeRestKeeps(k: Locks, w: Waiter, first: bool)
    requires Visitable(k, w) && w.PathWaiter?
    ensures var (k', v) := WakeRest(k, w, first); Accounted(k, w, first, k', v)
  {
    var (k2, w2, o2) := LockSecond(k, w);
    LockSecondKeeps(k, w);
    DropAllKeeps(k2, w2);
    ProgressTrans(k, w, k2, w2, DropAll(k2, w2), w2.(held1 := None, held2 := None));
  }

  lemma WakeOneKeeps(k: Locks, w: Waiter, first: bool)
    requires Visitable(k, w)
    ensures var (k', v) := WakeOne(k, w, first); Accounted(k, w, first, k', v)
  {
    if w.PathWaiter? {
      var (k1, w1, o1) := LockFirst(k, w);
      LockFirstKeeps(k, w);
      if o1 == NoEntry {
        DropAllKeeps(k1, w1);
        ProgressTrans(k, w, k1, w1, DropAll(k1, w1), w1.(held1 := None, held2 := None));
      } else {
        var (k', v) := WakeRest(k1, w1, first);
        WakeRestKeeps(k1, w1, first);
        AccountedAfter(k, w, k1, w1, first, k', v);
      }
    }
  }

  // ------------------------------------------------------------ the whole pass

  /** Everything a pass over the queue relies on. */
  ghost predicate QueueOk(k: Locks, q: seq<Waiter>)
  {
    && LocksOk(k)
    && OnlyHeadHolds(k.holds, q)
    && (forall i :: 0 <= i < |q| ==> WaiterKnown(k.nodes, q[i]))
    && Live(k.holds) + TotalNeed(q) < INT_MAX
  }

  /** The holds kept by waiters: only the head of the queue has any. */
  function QueueHandles(q: seq<Waiter>): set<nat>
  {
    if q == [] then {} else HandlesOf(q[0])
  }

  function AfterVisit(v: Verdict): seq<Waiter>
  {
    if v.Waiting? then [v.w] else []
  }

  function Owned(v: Verdict): set<nat>
  {
    if v.Served? then v.handles else {}
  }

  /** wake_up_queued: visits `rest` in order, after the waiters in `kept` have stayed. */
  ghost function Wake(k: Locks, kept: seq<Waiter>, rest: seq<Waiter>): (r: (Locks, seq<Waiter>, set<nat>))
    requires QueueOk(k, kept + rest)
    decreases |rest|
  {
    if rest == [] then (k, kept, {})
    else
      HeadVisitable(k, kept, rest);
      var (k1, v) := WakeOne(k, rest[0], kept == []);
      VisitKeepsQueue(k, kept, rest);
      var (k2, q, own) := Wake(k1, kept + AfterVisit(v), rest[1..]);
      (k2, q, own + Owned(v))
  }

  lemma HeadVisitable(k: Locks, kept: seq<Waiter>, rest: seq<Waiter>)
    requires QueueOk(k, kept + rest) && rest != []
    ensures Visitable(k, rest[0])
  {
    assert (kept + rest)[|kept|] == rest[0];
    TotalNeedAppend(kept, rest);
  }

  /** What one visit does, seen without the waiter's own holds. */
  ghost predicate VisitEffect(k: Locks, w: Waiter, first: bool, k1: Locks, v: Verdict)
  {
    && LocksOk(k1) && SameButLocks(k.nodes, k1.nodes) && |k.holds| <= |k1.holds|
    && (forall i :: 0 <= i < |k.holds| && i !in HandlesOf(w) ==> k1.holds[i] == k.holds[i])
    && LiveSet(k1.holds) == LiveSet(k.holds) - HandlesOf(w) + QueueHandles(AfterVisit(v)) + Owned(v)
    && (forall i :: i in QueueHandles(AfterVisit(v)) + Owned(v) ==> i in HandlesOf(w) || i >= |k.holds|)
    && Live(k1.holds) + TotalNeed(AfterVisit(v)) <= Live(k.holds) + w.Need()
    && (v.Waiting? ==> WaiterStands(k1.holds, v.w) && WaiterKnown(k1.nodes, v.w) && !v.w.Complete()
                       && (first || v.w.HoldsNothing()))
  }

  lemma AccountedEffect(k: Locks, w: Waiter, first: bool, k1: Locks, v: Verdict)
    requires Visitable(k, w) && !w.Complete() && (first || w.HoldsNothing()) && Accounted(k, w, first, k1, v)
    ensures VisitEffect(k, w, first, k1, v)
  {
    hide Forest, LocksMatch, Live;
    assert v.Waiting? ==> TotalNeed(AfterVisit(v)) == v.w.Need() by {
      assert v.Waiting? ==> AfterVisit(v)[1..] == [];
    }
    match v
    case Waiting(w') =>
      assert QueueHandles(AfterVisit(v)) == HandlesOf(w') && Owned(v) == {};
    case Served(own) =>
      var w' :| Progress(k, w, k1, w') && w'.Complete() && own == HandlesOf(w');
      assert QueueHandles(AfterVisit(v)) == {} && Owned(v) == own;
    case Refused =>
      assert QueueHandles(AfterVisit(v)) == {} && Owned(v) == {};
      assert HandlesOf(w.(held1 := None, held2 := None)) == {};
  }

  lemma VisitHasEffect(k: Locks, w: Waiter, first: bool)
    requires Visitable(k, w) && !w.Complete() && (first || w.HoldsNothing())
    ensures var (k1, v) := WakeOne(k, w, first); VisitEffect(k, w, first, k1, v)
  {
    var (k1, v) := WakeOne(k, w, first);
    WakeOneKeeps(k, w, first);
    AccountedEffect(k, w, first, k1, v);
  }

  lemma VisitKeepsQueue(k: Locks, kept: seq<Waiter>, rest: seq<Waiter>)
    requires QueueOk(k, kept + rest) && rest != []
    ensures Visitable(k, rest[0])
    ensures var (k1, v) := WakeOne(k, rest[0], kept == []);
            VisitEffect(k, rest[0], kept == [], k1, v) && QueueOk(k1, kept + AfterVisit(v) + rest[1..])
  {
    hide WakeOne, SameButLocks, Forest, LocksMatch, Live, LiveSet, WaiterStands, WaiterKnown;
    var q := kept + rest;
    var n := |kept|;
    HeadVisitable(k, kept, rest);
    assert q[n] == rest[0];
    VisitHasEffect(k, rest[0], kept == []);
    var (k1, v) := WakeOne(k, rest[0], kept == []);
    var q1 := kept + AfterVisit(v) + rest[1..];
    TotalNeedAppend(kept, rest);
    TotalNeedAppend(kept + AfterVisit(v), rest[1..]);
    TotalNeedAppend(kept, AfterVisit(v));
    forall i | 0 <= i < |q1|
      ensures WaiterStands(k1.holds, q1[i]) && !q1[i].Complete() && (i > 0 ==> q1[i].HoldsNothing())
      ensures WaiterKnown(k1.nodes, q1[i])
    {
      if i == n && v.Waiting? {
        assert q1[i] == v.w;
      } else {
        var j := if i < n then i else i - |AfterVisit(v)| + 1;
        assert q1[i] == q[j];
        StandsFrame(k, rest[0], kept == [], k1, v, q[j]);
      }
    }
  }

  /** A waiter that shares no hold with the visited one stands as before. */
  lemma StandsFrame(k: Locks, w: Waiter, first: bool, k1: Locks, v: Verdict, u: Waiter)
    requires VisitEffect(k, w, first, k1, v) && Forest(k.nodes)
    requires WaiterStands(k.holds, u) && WaiterKnown(k.nodes, u) && HandlesOf(u) !! HandlesOf(w)
    ensures WaiterStands(k1.holds, u) && WaiterKnown(k1.nodes, u)
  {
    if u.PathWaiter? {
      SameKnown(k.nodes, k1.nodes, u.first);
      if u.second.Some? { SameKnown(k.nodes, k1.nodes, u.second.value); }
    }
  }

  /**
    No hold is lost: the holds live in `hs'` are those live in `hs` that the queue did not keep (`was`),
    those it keeps now (`now`), and those handed to served requests (`own`); new ones have fresh handles.
   */
  ghost predicate NoneLost(hs: Holds, was: set<nat>, hs': Holds, now: set<nat>, own: set<nat>)
  {
    && |hs| <= |hs'|
    && (forall i :: 0 <= i < |hs| && i !in was ==> hs'[i] == hs[i])
    && LiveSet(hs') == LiveSet(hs) - was + now + own
    && now !! own
    && (forall i :: i in now + own ==> i in was || i >= |hs|)
  }

  lemma NoneLostTrans(h0: Holds, was: set<nat>, h1: Holds, mid: set<nat>, own1: set<nat>,
                      h2: Holds, now: set<nat>, own2: set<nat>)
    requires NoneLost(h0, was, h1, mid, own1) && NoneLost(h1, mid, h2, now, own2)
    ensures NoneLost(h0, was, h2, now, own2 + own1)
  {
    assert forall i :: i in own1 ==> i in LiveSet(h1);
    assert forall i :: i in mid ==> i !in LiveSet(h0) - was;
    forall i | 0 <= i < |h0| && i !in was ensures h2[i] == h0[i] {
      assert i !in mid;
    }
  }

  lemma VisitLosesNone(k: Locks, kept: seq<Waiter>, rest: seq<Waiter>)
    requires QueueOk(k, kept + rest) && rest != []
    requires Visitable(k, rest[0])
    ensures var (k1, v) := WakeOne(k, rest[0], kept == []);
      NoneLost(k.holds, QueueHandles(kept + rest), k1.holds,
               QueueHandles(kept + AfterVisit(v) + rest[1..]), Owned(v))
  {
    hide WakeOne, SameButLocks, LocksOk, Live, WaiterStands, WaiterKnown, TotalNeed;
    VisitKeepsQueue(k, kept, rest);
    var (k1, v) := WakeOne(k, rest[0], kept == []);
    assert (kept + rest)[|kept|] == rest[0];
    if kept != [] {
      assert (kept + rest)[0] == kept[0] && (kept + AfterVisit(v) + rest[1..])[0] == kept[0];
      QueueHandlesLive(k, kept + rest);
    } else if rest[1..] != [] {
      assert (kept + rest)[1] == rest[1];
    }
  }

  /** A wake-up pass keeps the queue in order, moves no parent link and loses no hold. */
  lemma {:induction false} WakeKeeps(k: Locks, kept: seq<Waiter>, rest: seq<Waiter>)
    requires QueueOk(k, kept + rest)
    ensures var (k', q, own) := Wake(k, kept, rest);
      && QueueOk(k', q) && SameButLocks(k.nodes, k'.nodes)
      && NoneLost(k.holds, QueueHandles(kept + rest), k'.holds, QueueHandles(q), own)
    decreases |rest|
  {
    if rest == [] {
      assert kept + rest == kept;
      QueueHandlesLive(k, kept);
    } else {
      HeadVisitable(k, kept, rest);
      var (k1, v) := WakeOne(k, rest[0], kept == []);
      VisitKeepsQueue(k, kept, rest);
      var kept1 := kept + AfterVisit(v);
      WakeKeeps(k1, kept1, rest[1..]);
      var (k2, q, own) := Wake(k1, kept1, rest[1..]);
      VisitLosesNone(k, kept, rest);
      NoneLostTrans(k.holds, QueueHandles(kept + rest), k1.holds, QueueHandles(kept1 + rest[1..]), Owned(v),
                    k2.holds, QueueHandles(q), own);
    }
  }

  lemma QueueHandlesLive(k: Locks, q: seq<Waiter>)
    requires QueueOk(k, q)
    ensures QueueHandles(q) <= LiveSet(k.holds)
  {
  }
}
