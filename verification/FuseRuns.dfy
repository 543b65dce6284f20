/**
  Runs: any sequence of enabled events, in any interleaving of requests.  The invariant of
  `FuseState` holds in every reachable state, and what a request locked stays where it was
  until that request lets go.
 */
module FuseRuns {
  import opened Wrappers
  import opened PathTree
  import opened TreeOps
  import opened PathLocks
  import opened LockQueue
  import opened FuseState

  // -------------------------------------------------------- lock-only events

  /** The lock part of the invariant, between two halves of a critical section. */
  ghost predicate LockInv(k: Locks, q: seq<Waiter>, owned: set<nat>)
  {
    && LocksOk(k)
    && OnlyHeadHolds(k.holds, q)
    && Live(k.holds) + TotalNeed(q) < INT_MAX
    && LiveSet(k.holds) == owned + QueueHandles(q)
    && owned !! QueueHandles(q)
  }

  lemma SameCounts(t: Tree, t': Tree, pins: multiset<Ino>)
    requires ExactCounts(t, pins) && SameButLocks(t, t')
    ensures ExactCounts(t', pins)
  {
    forall y | y in t' ensures t'[y].refctr == References(t', pins, y) {
      assert t[y].refctr == References(t, pins, y);
      assert Children(t', y) == Children(t, y);
    }
  }

  /** A state reached by changing locks only. */
  lemma LockStepInv(s: State, s': State)
    requires Inv(s) && SameButLocks(s.nodes, s'.nodes) && s'.pins == s.pins
    requires LockInv(s'.LockState(), s'.queue, s'.owned)
    ensures Inv(s')
  {
    SameCounts(s.nodes, s'.nodes, s.pins);
  }

  lemma LiveBelow(hs: Holds)
    ensures forall i :: i in LiveSet(hs) ==> i < |hs| && hs[i].Some?
  {
  }

  /** More holds at the end make no difference to those who wait. */
  lemma StandWithMore(hs: Holds, hs': Holds, q: seq<Waiter>)
    requires hs <= hs' && OnlyHeadHolds(hs, q)
    ensures OnlyHeadHolds(hs', q)
  {
    forall i | 0 <= i < |q| ensures WaiterStands(hs', q[i]) { assert WaiterStands(hs, q[i]); }
  }

  /** What a try leaves in the locks part of the invariant, for a request that is not queued. */
  lemma TryOwned(k: Locks, q: seq<Waiter>, owned: set<nat>, req: PathReq)
    requires LockInv(k, q, owned) && ReqKnown(k.nodes, req) && Live(k.holds) + TotalNeed(q) + 1 < INT_MAX
    ensures var (k', h, o) := TryHold(k, req);
      && LockInv(k', q, owned + if h.Some? then {h.value} else {})
      && k.holds <= k'.holds && (h.Some? ==> h.value !in owned && h.value < |k'.holds| && k'.holds[h.value].Some?)
      && Live(k'.holds) == Live(k.holds) + if h.Some? then 1 else 0
  {
    hide Forest, LocksMatch, SameButLocks, LiveSet, TryHold, OnlyHeadHolds, QueueHandles, Live, TotalNeed;
    var (k', h, o) := TryHold(k, req);
    TryHoldKeeps(k, req);
    TriedProgress(k, ForgetWaiter(ROOT, 0), req);
    StandWithMore(k.holds, k'.holds, q);
    LiveBelow(k.holds);
  }

  lemma DropOwned(k: Locks, q: seq<Waiter>, owned: set<nat>, i: nat)
    requires LockInv(k, q, owned) && i in owned
    ensures i < |k.holds| && k.holds[i].Some?
    ensures LockInv(Drop(k, Some(i)), q, owned - {i})
    ensures Drop(k, Some(i)).holds == k.holds[i := None]
  {
    assert i in LiveSet(k.holds);
    DropKeeps(k, Some(i));
    var k' := Drop(k, Some(i));
    assert LiveSet(k'.holds) == LiveSet(k.holds) - {i};
    forall j | 0 <= j < |q| ensures WaiterStands(k'.holds, q[j]) {
      assert WaiterStands(k.holds, q[j]);
      if j > 0 { assert q[j].HoldsNothing(); }
      assert HandlesOf(q[j]) <= QueueHandles(q);
    }
  }

  lemma Enqueued(k: Locks, q: seq<Waiter>, owned: set<nat>, w: Waiter)
    requires LockInv(k, q, owned) && w.HoldsNothing() && Live(k.holds) + TotalNeed(q) + w.Need() < INT_MAX
    ensures LockInv(k, q + [w], owned)
  {
    TotalNeedAppend(q, [w]);
    assert [w][1..] == [];
    forall j | 0 <= j < |q + [w]|
      ensures WaiterStands(k.holds, (q + [w])[j]) && !(q + [w])[j].Complete()
      ensures j > 0 ==> (q + [w])[j].HoldsNothing()
    {
      if j < |q| { assert (q + [w])[j] == q[j]; }
    }
  }

  /** Running requests keep the holds they have, except the released ones. */
  ghost predicate OwnedKept(s: State, s': State, released: set<nat>)
  {
    forall i :: i in s.owned && i !in released ==>
      i in s'.owned && i < |s.holds| && i < |s'.holds| && s'.holds[i] == s.holds[i]
  }

  lemma AcquireKeeps(s: State, req: PathReq)
    requires Inv(s) && Enabled(s, Acquire(req))
    ensures Inv(DoAcquire(s, req)) && OwnedKept(s, DoAcquire(s, req), {})
    ensures SameButLocks(s.nodes, DoAcquire(s, req).nodes)
  {
    var (k, h, o) := TryHold(s.LockState(), req);
    TryOwned(s.LockState(), s.queue, s.owned, req);
    assert forall i :: i in s.owned ==> i in LiveSet(s.holds);
    if o == Again {
      Enqueued(k, s.queue, s.owned, PathWaiter(req, None, None, None));
    }
    LockStepInv(s, DoAcquire(s, req));
  }

  /** Between the two paths of one request: the first is held at `h1`, everyone else as in `s`. */
  ghost predicate HalfWay(s: State, k: Locks, h1: nat)
  {
    && SameButLocks(s.nodes, k.nodes)
    && LockInv(k, s.queue, s.owned + {h1}) && h1 !in s.owned
    && s.holds <= k.holds
    && h1 < |k.holds| && k.holds[h1].Some?
    && (forall i :: i in s.owned ==> i < |s.holds|)
  }

  lemma GiveBack(s: State, k: Locks, h1: nat)
    requires HalfWay(s, k, h1)
    ensures LockInv(Drop(k, Some(h1)), s.queue, s.owned) && SameButLocks(s.nodes, Drop(k, Some(h1)).nodes)
    ensures Live(Drop(k, Some(h1)).holds) == Live(k.holds) - 1
    ensures var hs := Drop(k, Some(h1)).holds;
            forall i :: i in s.owned ==> i < |s.holds| && i < |hs| && hs[i] == s.holds[i]
  {
    DropOwned(k, s.queue, s.owned + {h1}, h1);
    DropKeeps(k, Some(h1));
    assert s.owned + {h1} - {h1} == s.owned;
  }

  lemma AcquireSecondKeeps(s: State, k1: Locks, h1: nat, req1: PathReq, req2: PathReq)
    requires Inv(s) && HalfWay(s, k1, h1)
    requires Live(k1.holds) + TotalNeed(s.queue) + 1 < INT_MAX && ReqKnown(k1.nodes, req2)
    ensures var s' := DoAcquireSecond(s, k1, Some(h1), req1, req2);
            Inv(s') && OwnedKept(s, s', {}) && SameButLocks(s.nodes, s'.nodes)
  {
    hide TryHold, LiveSet, Live, TotalNeed, OnlyHeadHolds, Forest, LocksMatch, ExactCounts, QueueHandles;
    var (k2, h2, o2) := TryHold(k1, req2);
    var s' := DoAcquireSecond(s, k1, Some(h1), req1, req2);
    TryOwned(k1, s.queue, s.owned + {h1}, req2);
    if o2 == Granted {
      assert s.owned + {h1} + {h2.value} == s.owned + {h1, h2.value};
    } else {
      GiveBack(s, k2, h1);
      if o2 == Again {
        Enqueued(Drop(k2, Some(h1)), s.queue, s.owned, PathWaiter(req1, Some(req2), None, None));
      }
    }
    LockStepInv(s, s');
  }

  lemma AcquireTwoKeeps(s: State, req1: PathReq, req2: PathReq)
    requires Inv(s) && Enabled(s, AcquireTwo(req1, req2))
    ensures var s' := DoAcquireTwo(s, req1, req2);
            Inv(s') && OwnedKept(s, s', {}) && SameButLocks(s.nodes, s'.nodes)
  {
    var (k1, h1, o1) := TryHold(s.LockState(), req1);
    TryOwned(s.LockState(), s.queue, s.owned, req1);
    assert forall i :: i in s.owned ==> i in LiveSet(s.holds);
    if o1 == Granted {
      SameKnown(s.nodes, k1.nodes, req2);
      AcquireSecondKeeps(s, k1, h1.value, req1, req2);
    } else {
      if o1 == Again { Enqueued(k1, s.queue, s.owned, PathWaiter(req1, Some(req2), None, None)); }
      LockStepInv(s, DoAcquireTwo(s, req1, req2));
    }
  }

  /** The holds the event releases are gone; the pass over the queue then hands out what it can. */
  lemma WakeInv(k: Locks, q: seq<Waiter>, owned: set<nat>)
    requires LockInv(k, q, owned) && forall i :: 0 <= i < |q| ==> WaiterKnown(k.nodes, q[i])
    ensures QueueOk(k, [] + q)
    ensures var (k', q', own) := Wake(k, [], q);
      && SameButLocks(k.nodes, k'.nodes) && LockInv(k', q', owned + own)
      && |k.holds| <= |k'.holds| && forall i :: i in owned ==> i < |k.holds| && k'.holds[i] == k.holds[i]
  {
    assert [] + q == q;
    WakeKeeps(k, [], q);
    var (k', q', own) := Wake(k, [], q);
    forall i | i in owned ensures i < |k.holds| { assert i in LiveSet(k.holds); }
    assert LiveSet(k'.holds) == owned + own + QueueHandles(q');
  }

  lemma WaitersKnownAfter(t: Tree, t': Tree, q: seq<Waiter>)
    requires Forest(t) && SameButLocks(t, t') && forall i :: 0 <= i < |q| ==> WaiterKnown(t, q[i])
    ensures forall i :: 0 <= i < |q| ==> WaiterKnown(t', q[i])
  {
    forall i | 0 <= i < |q| ensures WaiterKnown(t', q[i]) {
      assert WaiterKnown(t, q[i]);
      if q[i].PathWaiter? {
        SameKnown(t, t', q[i].first);
        if q[i].second.Some? { SameKnown(t, t', q[i].second.value); }
      }
    }
  }

  lemma ReleaseKeeps(s: State, k: Locks, released: set<nat>)
    requires Inv(s) && KernelKeepsWaiters(s) && released <= s.owned
    requires SameButLocks(s.nodes, k.nodes) && LockInv(k, s.queue, s.owned - released)
    requires forall i :: i in s.owned - released ==> i < |s.holds| && i < |k.holds| && k.holds[i] == s.holds[i]
    ensures QueueOk(k, s.queue)
    ensures var s' := DoRelease(s, k, released);
            Inv(s') && SameButLocks(s.nodes, s'.nodes) && OwnedKept(s, s', released)
  {
    WaitersKnownAfter(s.nodes, k.nodes, s.queue);
    WakeInv(k, s.queue, s.owned - released);
    assert [] + s.queue == s.queue;
    LockStepInv(s, DoRelease(s, k, released));
  }

  // -------------------------------------------------------------- all events

  /** The state after releasing the holds in `released`, before the queue is woken. */
  ghost function Freed(s: State, i: nat): Locks
    requires Inv(s) && i in s.owned
  {
    assert i in LiveSet(s.holds);
    Drop(s.LockState(), Some(i))
  }

  ghost function FreedTwo(s: State, i: nat, j: nat): Locks
    requires Inv(s) && i in s.owned && j in s.owned && i != j
  {
    DropOwned(s.LockState(), s.queue, s.owned, i);
    assert j in LiveSet(Freed(s, i).holds);
    Drop(Freed(s, i), Some(j))
  }

  lemma FreedKeeps(s: State, i: nat)
    requires Inv(s) && i in s.owned
    ensures LockInv(Freed(s, i), s.queue, s.owned - {i}) && SameButLocks(s.nodes, Freed(s, i).nodes)
    ensures Freed(s, i).holds == s.holds[i := None]
    ensures forall j :: j in s.owned ==> j < |s.holds|
  {
    assert forall j :: j in s.owned ==> j in LiveSet(s.holds);
    DropOwned(s.LockState(), s.queue, s.owned, i);
  }

  lemma FreedTwoKeeps(s: State, i: nat, j: nat)
    requires Inv(s) && i in s.owned && j in s.owned && i != j
    ensures LockInv(FreedTwo(s, i, j), s.queue, s.owned - {i, j}) && SameButLocks(s.nodes, FreedTwo(s, i, j).nodes)
    ensures i < |s.holds| && j < |s.holds| && FreedTwo(s, i, j).holds == s.holds[i := None][j := None]
  {
    FreedKeeps(s, i);
    DropOwned(Freed(s, i), s.queue, s.owned - {i}, j);
    assert s.owned - {i} - {j} == s.owned - {i, j};
  }

  /** One event. */
  ghost function Apply(s: State, e: Event): State
    requires Inv(s) && KernelKeepsWaiters(s) && Enabled(s, e)
  {
    match e
    case Acquire(req) => DoAcquire(s, req)
    case AcquireTwo(req1, req2) => DoAcquireTwo(s, req1, req2)
    case Release(i) =>
      FreedKeeps(s, i);
      WaitersKnownAfter(s.nodes, Freed(s, i).nodes, s.queue);
      DoRelease(s, Freed(s, i), {i})
    case ReleaseTwo(i, j) =>
      FreedTwoKeeps(s, i, j);
      WaitersKnownAfter(s.nodes, FreedTwo(s, i, j).nodes, s.queue);
      DoRelease(s, FreedTwo(s, i, j), {i, j})
    case ForgetNode(x, n) =>
      if x == ROOT then s
      else if ForgetBlocked(s.nodes, x, n) then s.(queue := s.queue + [ForgetWaiter(x, n)])
      else s.(nodes := Forgotten(s.nodes, x, n))
    case RetryForget(p) =>
      var w := s.queue[p];
      if ForgetBlocked(s.nodes, w.node, w.n) then s
      else s.(nodes := Forgotten(s.nodes, w.node, w.n), queue := s.queue[..p] + s.queue[p + 1..])
    case FindByName(d, name, newId) => s.(nodes := Found(s.nodes, Link(d, name), newId))
    case FindSelf(x) => s.(nodes := IncLookup(s.nodes, x))
    case PinDot(x) => s.(nodes := Pinned(s.nodes, x), pins := s.pins + multiset{x})
    case UnpinDot(x) =>
      UnpinnedKeeps(s.nodes, s.pins, s.holds, x);
      s.(nodes := Unref(s.nodes, LineageOf(s.nodes, x)), pins := s.pins - multiset{x})
    case RemoveName(i) => s.(nodes := Removed(s.nodes, HoldLink(s, i)))
    case RenameName(i, j) => s.(nodes := Moved(s.nodes, HoldLink(s, i), HoldLink(s, j), false))
    case HideName(i, hidden) =>
      s.(nodes := Moved(s.nodes, HoldLink(s, i), Link(s.holds[i].value.req.start, hidden), true))
  }

  lemma ReleaseEvent(s: State, i: nat)
    requires Inv(s) && KernelKeepsWaiters(s) && Enabled(s, Release(i))
    ensures var s' := Apply(s, Release(i));
            Inv(s') && SameButLocks(s.nodes, s'.nodes) && OwnedKept(s, s', {i})
  {
    FreedKeeps(s, i);
    ReleaseKeeps(s, Freed(s, i), {i});
  }

  lemma ReleaseTwoEvent(s: State, i: nat, j: nat)
    requires Inv(s) && KernelKeepsWaiters(s) && Enabled(s, ReleaseTwo(i, j))
    ensures var s' := Apply(s, ReleaseTwo(i, j));
            Inv(s') && SameButLocks(s.nodes, s'.nodes) && OwnedKept(s, s', {i, j})
  {
    FreedTwoKeeps(s, i, j);
    assert forall k :: k in s.owned ==> k in LiveSet(s.holds);
    ReleaseKeeps(s, FreedTwo(s, i, j), {i, j});
  }

  /** Restructuring leaves the queue as it is, except that a forget may leave or join it. */
  lemma DequeueForget(s: State, p: nat, t: Tree)
    requires Inv(s) && p < |s.queue| && s.queue[p].ForgetWaiter?
    requires Forest(t) && ExactCounts(t, s.pins) && LocksMatch(t, s.holds)
    ensures Inv(s.(nodes := t, queue := s.queue[..p] + s.queue[p + 1..]))
  {
    var q := s.queue[..p] + s.queue[p + 1..];
    assert s.queue == s.queue[..p] + ([s.queue[p]] + s.queue[p + 1..]);
    TotalNeedAppend(s.queue[..p], [s.queue[p]] + s.queue[p + 1..]);
    TotalNeedAppend([s.queue[p]], s.queue[p + 1..]);
    TotalNeedAppend(s.queue[..p], s.queue[p + 1..]);
    forall i | 0 <= i < |q|
      ensures WaiterStands(s.holds, q[i]) && !q[i].Complete() && (i > 0 ==> q[i].HoldsNothing())
    {
      assert q[i] == s.queue[if i < p then i else i + 1];
    }
    assert QueueHandles(q) == QueueHandles(s.queue) by {
      if q != [] && p == 0 { assert s.queue[1].HoldsNothing() && q[0] == s.queue[1]; }
    }
  }

  lemma ForgetKeeps(s: State, x: Ino, n: nat)
    requires Inv(s) && KernelKeepsWaiters(s) && Enabled(s, ForgetNode(x, n))
    ensures Inv(Apply(s, ForgetNode(x, n)))
  {
    if x != ROOT {
      if ForgetBlocked(s.nodes, x, n) {
        Enqueued(s.LockState(), s.queue, s.owned, ForgetWaiter(x, n));
      } else {
        ForgottenKeeps(s.nodes, s.pins, s.holds, x, n);
      }
    }
  }

  /** Every event keeps the invariant. */
  lemma EventKeepsInv(s: State, e: Event)
    requires Inv(s) && KernelKeepsWaiters(s) && Enabled(s, e)
    ensures Inv(Apply(s, e))
  {
    match e
    case Acquire(req) => AcquireKeeps(s, req);
    case AcquireTwo(req1, req2) => AcquireTwoKeeps(s, req1, req2);
    case Release(i) => ReleaseEvent(s, i);
    case ReleaseTwo(i, j) => ReleaseTwoEvent(s, i, j);
    case ForgetNode(x, n) => ForgetKeeps(s, x, n);
    case RetryForget(p) =>
      var w := s.queue[p];
      if !ForgetBlocked(s.nodes, w.node, w.n) {
        ForgottenKeeps(s.nodes, s.pins, s.holds, w.node, w.n);
        DequeueForget(s, p, Forgotten(s.nodes, w.node, w.n));
      }
    case FindByName(d, name, newId) =>
      if Lookup(s.nodes, Link(d, name)).Some? {
        IncLookupKeeps(s.nodes, s.pins, s.holds, Lookup(s.nodes, Link(d, name)).value);
      } else {
        NewNodeKeeps(s.nodes, s.pins, s.holds, Link(d, name), newId);
      }
    case FindSelf(x) => IncLookupKeeps(s.nodes, s.pins, s.holds, x);
    case PinDot(x) => PinnedKeeps(s.nodes, s.pins, s.holds, x);
    case UnpinDot(x) => UnpinnedKeeps(s.nodes, s.pins, s.holds, x);
    case RemoveName(i) => RemovedKeeps(s, i);
    case RenameName(i, j) => MovedKeeps(s, i, j, HoldLink(s, j), false);
    case HideName(i, hidden) => MovedKeeps(s, i, i, Link(s.holds[i].value.req.start, hidden), true);
  }

  // ------------------------------------------- what every event leaves in place

  function WriteHolds(e: Event): set<nat>
  {
    match e
    case RemoveName(i) => {i}
    case RenameName(i, j) => {i, j}
    case HideName(i, _) => {i}
    case _ => {}
  }

  function ReleasedHolds(e: Event): set<nat>
  {
    match e
    case Release(i) => {i}
    case ReleaseTwo(i, j) => {i, j}
    case _ => {}
  }

  /**
    A node that stays in the tree changes its parent or its name only if the very request that
    performs the event holds it write-locked; and no node with any lock on it is freed.
   */
  lemma EventMovesOnlyWriteHeld(s: State, e: Event)
    requires Inv(s) && KernelKeepsWaiters(s) && Enabled(s, e)
    ensures forall x :: x in s.nodes && s.nodes[x].treelock != 0 ==> x in Apply(s, e).nodes
    ensures forall x :: x in s.nodes && x in Apply(s, e).nodes && Apply(s, e).nodes[x].link != s.nodes[x].link ==>
              exists i :: i in WriteHolds(e) && i < |s.holds| && s.holds[i].Some? && s.holds[i].value.wnode == Some(x)
  {
    hide LiveSet, Live, TotalNeed, OnlyHeadHolds, LocksMatch, ExactCounts, QueueHandles, Unref, Rename, Unlink;
    match e
    case Acquire(req) => AcquireKeeps(s, req);
    case AcquireTwo(req1, req2) => AcquireTwoKeeps(s, req1, req2);
    case Release(i) => ReleaseEvent(s, i);
    case ReleaseTwo(i, j) => ReleaseTwoEvent(s, i, j);
    case ForgetNode(x, n) => if x != ROOT { ForgottenLinks(s, x, n); }
    case RetryForget(p) => ForgottenLinks(s, s.queue[p].node, s.queue[p].n);
    case FindByName(d, name, newId) =>
    case FindSelf(x) =>
    case PinDot(x) =>
    case UnpinDot(x) =>
      UnpinnedKeeps(s.nodes, s.pins, s.holds, x);
      UnrefFrame(s.nodes, LineageOf(s.nodes, x));
    case RemoveName(i) => RemovedKeeps(s, i);
    case RenameName(i, j) => MovedKeeps(s, i, j, HoldLink(s, j), false);
    case HideName(i, hidden) => MovedKeeps(s, i, i, Link(s.holds[i].value.req.start, hidden), true);
  }

  lemma ForgottenLinks(s: State, x: Ino, n: nat)
    requires Inv(s) && x in s.nodes && x != ROOT && 1 <= n <= s.nodes[x].nlookup
    ensures !ForgetBlocked(s.nodes, x, n) ==>
      var t' := Forgotten(s.nodes, x, n);
      && (forall y :: y in s.nodes && s.nodes[y].treelock != 0 ==> y in t')
      && (forall y :: y in t' ==> y in s.nodes && t'[y].link == s.nodes[y].link)
  {
    if !ForgetBlocked(s.nodes, x, n) {
      ForgottenKeeps(s.nodes, s.pins, s.holds, x, n);
      var t1 := s.nodes[x := s.nodes[x].(nlookup := s.nodes[x].nlookup - n)];
      UnrefFrame(t1, LineageOf(s.nodes, x));
    }
  }

  lemma EventKeepsOwned(s: State, e: Event)
    requires Inv(s) && KernelKeepsWaiters(s) && Enabled(s, e)
    ensures OwnedKept(s, Apply(s, e), ReleasedHolds(e))
  {
    assert forall i :: i in s.owned ==> i in LiveSet(s.holds);
    match e
    case Acquire(req) => AcquireKeeps(s, req);
    case AcquireTwo(req1, req2) => AcquireTwoKeeps(s, req1, req2);
    case Release(i) => ReleaseEvent(s, i);
    case ReleaseTwo(i, j) => ReleaseTwoEvent(s, i, j);
    case _ =>
  }

  /** Only its own request releases a hold. */
  lemma EventKeepsHolds(s: State, e: Event, i: nat)
    requires Inv(s) && KernelKeepsWaiters(s) && Enabled(s, e) && i in s.owned && i !in ReleasedHolds(e)
    ensures i in Apply(s, e).owned && i < |s.holds| && i < |Apply(s, e).holds|
    ensures Apply(s, e).holds[i] == s.holds[i] && s.holds[i].Some?
  {
    assert i in LiveSet(s.holds);
    EventKeepsOwned(s, e);
  }

  // -------------------------------------------------------------------- runs

  /** `es` can happen from `s`, the kernel keeping its promises all along. */
  ghost predicate CanRun(s: State, es: seq<Event>)
    requires Inv(s)
    decreases |es|
  {
    es == [] ||
    (KernelKeepsWaiters(s) && Enabled(s, es[0]) &&
     (EventKeepsInv(s, es[0]); CanRun(Apply(s, es[0]), es[1..])))
  }

  ghost function Run(s: State, es: seq<Event>): State
    requires Inv(s) && CanRun(s, es)
    decreases |es|
  {
    if es == [] then s
    else EventKeepsInv(s, es[0]); Run(Apply(s, es[0]), es[1..])
  }

  lemma {:induction false} RunKeepsInv(s: State, es: seq<Event>)
    requires Inv(s) && CanRun(s, es)
    ensures Inv(Run(s, es))
    decreases |es|
  {
    if es != [] {
      EventKeepsInv(s, es[0]);
      RunKeepsInv(Apply(s, es[0]), es[1..]);
    }
  }

  /**
    Safety in every reachable state: the lock word of each node says exactly who holds it, a writer
    excludes everyone else, a waiter mark never outlives the last reader, and only the head of the
    queue waits while holding one (and only one) of its paths; counts are exact and positive.
   */
  lemma ReachableSafety(es: seq<Event>, x: Ino, p: nat)
    requires Inv(INITIAL) && CanRun(INITIAL, es)
    ensures var s := Run(INITIAL, es);
      && (x in s.nodes ==>
            && LockWord(s.nodes[x].treelock, Readers(s.holds, x), Writers(s.holds, x))
            && (Writers(s.holds, x) > 0 ==> Writers(s.holds, x) == 1 && Readers(s.holds, x) == 0)
            && (Readers(s.holds, x) == 0 && Writers(s.holds, x) == 0 ==> s.nodes[x].treelock == 0)
            && s.nodes[x].refctr == References(s.nodes, s.pins, x) > 0
            && (s.nodes[x].link.Some? ==> s.nodes[x].link.value.parent in s.nodes))
      && (p < |s.queue| && s.queue[p].PathWaiter? ==>
            && !(s.queue[p].held1.Some? && s.queue[p].held2.Some?)
            && (p > 0 ==> s.queue[p].held1.None? && s.queue[p].held2.None?))
  {
    RunKeepsInv(INITIAL, es);
    var s := Run(INITIAL, es);
    if x in s.nodes {
      LockWordMeans(s.nodes, s.holds, x);
      assert s.nodes[x].refctr == References(s.nodes, s.pins, x);
      if s.nodes[x].link.Some? { ParentHasLineage(s.nodes, x); }
    }
    if p < |s.queue| { assert !s.queue[p].Complete(); }
  }

  ghost predicate NeverReleased(es: seq<Event>, i: nat)
  {
    forall k :: 0 <= k < |es| ==> i !in ReleasedHolds(es[k])
  }

  /**
    From grant to release the chain a request locked is exactly the way from its start node to the
    root: no event in between changes a parent or a name on it, so unlocking walks the nodes that
    were locked and the path handed to the file system stays its path.
   */
  lemma {:induction false} ChainHeldThroughRun(s: State, es: seq<Event>, i: nat)
    requires Inv(s) && CanRun(s, es) && i in s.owned && NeverReleased(es, i)
    ensures var s' := Run(s, es);
      && i < |s.holds| && i < |s'.holds| && s.holds[i].Some? && s'.holds[i] == s.holds[i]
      && IsLineage(s'.nodes, s.holds[i].value.chain + [ROOT])
      && forall x :: x in s.holds[i].value.chain ==>
           x in s.nodes && x in s'.nodes && s'.nodes[x].link == s.nodes[x].link
    decreases |es|
  {
    assert i in LiveSet(s.holds);
    var h := s.holds[i].value;
    assert HoldStands(s.nodes, h);
    ChainAvoidsRoot(s.nodes, h.chain);
    if es != [] {
      var e := es[0];
      var s1 := Apply(s, e);
      EventKeepsInv(s, e);
      EventKeepsHolds(s, e, i);
      assert forall k :: 0 <= k < |es[1..]| ==> es[1..][k] == es[k + 1];
      ChainHeldThroughRun(s1, es[1..], i);
      forall x | x in h.chain ensures x in s1.nodes && s1.nodes[x].link == s.nodes[x].link {
        ReadHeldStays(s, e, i, x);
      }
    }
  }

  /** One event does not move a node that some running request reads. */
  lemma ReadHeldStays(s: State, e: Event, i: nat, x: Ino)
    requires Inv(s) && KernelKeepsWaiters(s) && Enabled(s, e)
    requires i < |s.holds| && s.holds[i].Some? && x in s.holds[i].value.chain && x in s.nodes
    ensures x in Apply(s, e).nodes && Apply(s, e).nodes[x].link == s.nodes[x].link
  {
    CountPositive(s.holds, i, x);
    LockWordMeans(s.nodes, s.holds, x);
    EventMovesOnlyWriteHeld(s, e);
    if Apply(s, e).nodes[x].link != s.nodes[x].link {
      var j :| j in WriteHolds(e) && j < |s.holds| && s.holds[j].Some? && s.holds[j].value.wnode == Some(x);
      WriteHeld(s.nodes, s.holds, j, x);
    }
  }

  /** The path theorem for the rename event, with everything it needs supplied by the locks it holds. */
  lemma RenameEventPaths(s: State, i: nat, j: nat, x: Ino, y: Ino)
    requires Inv(s) && KernelKeepsWaiters(s) && Enabled(s, RenameName(i, j))
    requires Lookup(s.nodes, HoldLink(s, i)) == Some(x) && y in s.nodes
    ensures var t, t', l := s.nodes, Apply(s, RenameName(i, j)).nodes, HoldLink(s, j);
      && HasLineage(t, x) && HasLineage(t, y) && HasLineage(t, l.parent) && HasLineage(t', y)
      && if x in LineageOf(t, y) then PrefixMoved(t, t', x, l, y)
         else if Lookup(t, l).Some? && Lookup(t, l).value in LineageOf(t, y) then PathOf(t', y).None?
         else PathOf(t', y) == PathOf(t, y)
  {
    var t, l := s.nodes, HoldLink(s, j);
    var d := Lookup(t, l);
    var tail := s.holds[j].value.chain + [ROOT];
    LockedRenameReady(s, i, j, l, x);
    RenameKeeps(t, s.pins, x, d, l, tail);
    assert HasLineage(t, x) && HasLineage(t, y);
    var h := s.holds[i].value;
    assert HoldStands(t, h) && HoldStands(t, s.holds[j].value);
    var line := [x] + (h.chain + [ROOT]);
    assert line[1..] == h.chain + [ROOT];
    assert IsLineage(t, line);
    PathIs(t, line);
    LineageUnique(t, line, LineageOf(t, x));
    if d.Some? {
      WriteHeld(t, s.holds, j, d.value);
      WriteHeldOnce(t, s.holds, i, j);
    }
    RenamePaths(t, Rename(t, x, d, l), x, d, l, tail, y);
  }
}
