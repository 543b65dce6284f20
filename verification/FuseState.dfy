/**
  The shared state behind the library's lock and one event for every critical section that
  touches it: taking and releasing path locks, and every change of the inode tree.
  The invariant holds in every state any run can reach.
 */
module FuseState {
  import opened Wrappers
  import opened PathTree
  import opened TreeOps
  import opened PathLocks
  import opened LockQueue

  /**
    `pins` are the "." lookups in progress, `owned` the holds of requests that are running
    (all other live holds belong to the head of the queue).
   */
  datatype State = State(nodes: Tree, pins: multiset<Ino>, holds: Holds, queue: seq<Waiter>, owned: set<nat>)
  {
    function LockState(): Locks { Locks(nodes, holds) }
  }

  ghost predicate Inv(s: State)
  {
    && Forest(s.nodes)
    && ExactCounts(s.nodes, s.pins)
    && LocksMatch(s.nodes, s.holds)
    && OnlyHeadHolds(s.holds, s.queue)
    && Live(s.holds) + TotalNeed(s.queue) < INT_MAX
    && LiveSet(s.holds) == s.owned + QueueHandles(s.queue)
    && s.owned !! QueueHandles(s.queue)
  }

  /** The kernel's part: it keeps the nodes that waiting requests start from, or will write-lock, looked up. */
  ghost predicate KernelKeepsWaiters(s: State)
  {
    forall i :: 0 <= i < |s.queue| ==> WaiterKnown(s.nodes, s.queue[i])
  }

  /** A freshly created library instance: just the root, looked up once. */
  const INITIAL: State := State(map[ROOT := Node(None, 1, 1, 0)], multiset{}, [], [], {})

  lemma InitialInv()
    ensures Inv(INITIAL)
  {
    var t := INITIAL.nodes;
    assert IsLineage(t, [ROOT]);
    assert HasLineage(t, ROOT);
    assert References(t, multiset{}, ROOT) == 1 by { assert Children(t, ROOT) == {}; }
  }

  // ------------------------------------------------------------------- events

  datatype Event =
    | Acquire(req: PathReq)
    | AcquireTwo(req1: PathReq, req2: PathReq)
    | Release(hold: nat)
    | ReleaseTwo(hold1: nat, hold2: nat)
    | ForgetNode(node: Ino, count: nat)
    | RetryForget(position: nat)
    | FindByName(parent: Ino, name: string, newId: Ino)
    | FindSelf(node: Ino)
    | PinDot(node: Ino)
    | UnpinDot(node: Ino)
    | RemoveName(hold: nat)
    | RenameName(hold1: nat, hold2: nat)
    | HideName(hold: nat, hidden: string)

  ghost predicate OwnedWrite(s: State, i: nat)
  {
    i in s.owned && i < |s.holds| && s.holds[i].Some? && s.holds[i].value.req.write
  }

  function HoldLink(s: State, i: nat): Link
    requires i < |s.holds| && s.holds[i].Some?
  {
    Link(s.holds[i].value.req.start, s.holds[i].value.req.name)
  }

  /**
    Operations on one name in one directory are serialised by the kernel: what the name resolves
    to is still the node the request write-locked, or nothing.
   */
  ghost predicate NameSerialised(s: State, i: nat)
    requires i < |s.holds| && s.holds[i].Some?
  {
    Lookup(s.nodes, HoldLink(s, i)) in {None, s.holds[i].value.wnode}
  }

  /** When an event can happen; besides the library's own checks, what the kernel guarantees. */
  ghost predicate Enabled(s: State, e: Event)
  {
    match e
    case Acquire(req) =>
      ReqKnown(s.nodes, req) && Live(s.holds) + TotalNeed(s.queue) + 2 < INT_MAX
    case AcquireTwo(req1, req2) =>
      ReqKnown(s.nodes, req1) && ReqKnown(s.nodes, req2) && Live(s.holds) + TotalNeed(s.queue) + 2 < INT_MAX
    case Release(i) => i in s.owned
    case ReleaseTwo(i, j) => i in s.owned && j in s.owned && i != j
    case ForgetNode(x, n) => x in s.nodes && 1 <= n <= s.nodes[x].nlookup
    case RetryForget(p) =>
      p < |s.queue| && s.queue[p].ForgetWaiter? && s.queue[p].node != ROOT &&
      s.queue[p].node in s.nodes && 1 <= s.queue[p].n <= s.nodes[s.queue[p].node].nlookup
    case FindByName(d, name, newId) => d in s.nodes && newId !in s.nodes
    case FindSelf(x) => x in s.nodes
    case PinDot(x) => x in s.nodes
    case UnpinDot(x) => x in s.pins
    case RemoveName(i) => OwnedWrite(s, i) && NameSerialised(s, i)
    case RenameName(i, j) =>
      OwnedWrite(s, i) && OwnedWrite(s, j) && i != j && NameSerialised(s, i) && NameSerialised(s, j)
    case HideName(i, hidden) => OwnedWrite(s, i) && NameSerialised(s, i)
  }

  // ------------------------------------------------------- the effect of events

  function Enqueue(s: State, k: Locks, w: Waiter): State
  {
    s.(nodes := k.nodes, holds := k.holds, queue := s.queue + [w])
  }

  ghost function DoAcquire(s: State, req: PathReq): State
    requires Inv(s) && req.start in s.nodes
  {
    var (k, h, o) := TryHold(s.LockState(), req);
    match o
    case Granted => s.(nodes := k.nodes, holds := k.holds, owned := s.owned + {h.value})
    case NoEntry => s.(nodes := k.nodes, holds := k.holds)
    case Again => Enqueue(s, k, PathWaiter(req, None, None, None))
  }

  ghost function DoAcquireTwo(s: State, req1: PathReq, req2: PathReq): State
    requires Inv(s) && ReqKnown(s.nodes, req1) && ReqKnown(s.nodes, req2) && Live(s.holds) + 2 < INT_MAX
  {
    var (k1, h1, o1) := TryHold(s.LockState(), req1);
    TryHoldKeeps(s.LockState(), req1);
    match o1
    case Granted =>
      SameKnown(s.nodes, k1.nodes, req2);
      DoAcquireSecond(s, k1, h1, req1, req2)
    case NoEntry => s.(nodes := k1.nodes, holds := k1.holds)
    case Again => Enqueue(s, k1, PathWaiter(req1, Some(req2), None, None))
  }

  /** The second half, holding the first path: that one is given back unless the second is granted too. */
  ghost function DoAcquireSecond(s: State, k1: Locks, h1: Option<nat>, req1: PathReq, req2: PathReq): State
    requires LocksOk(k1) && ReqKnown(k1.nodes, req2) && Live(k1.holds) + 1 < INT_MAX
    requires h1.Some? && h1.value < |k1.holds| && k1.holds[h1.value].Some?
  {
    var (k2, h2, o2) := TryHold(k1, req2);
    TryHoldKeeps(k1, req2);
    match o2
    case Granted => s.(nodes := k2.nodes, holds := k2.holds, owned := s.owned + {h1.value, h2.value})
    case NoEntry => s.(nodes := Drop(k2, h1).nodes, holds := Drop(k2, h1).holds)
    case Again => Enqueue(s, Drop(k2, h1), PathWaiter(req1, Some(req2), None, None))
  }

  /** Releases holds of a finished request, then lets the queue try again. */
  ghost function DoRelease(s: State, k: Locks, released: set<nat>): State
    requires QueueOk(k, s.queue)
  {
    assert [] + s.queue == s.queue;
    var (k1, q, own) := Wake(k, [], s.queue);
    State(k1.nodes, s.pins, k1.holds, q, s.owned - released + own)
  }

  /** forget_node once nothing blocks it. */
  ghost function Forgotten(t: Tree, x: Ino, n: nat): Tree
    requires Forest(t) && x in t && n <= t[x].nlookup
  {
    var t1 := t[x := t[x].(nlookup := t[x].nlookup - n)];
    if t[x].nlookup > n then t1 else Unref(t1, LineageOf(t, x))
  }

  /** Forgetting waits while it would drop the last lookup of a locked node. */
  predicate ForgetBlocked(t: Tree, x: Ino, n: nat)
    requires x in t
  {
    t[x].nlookup == n && t[x].treelock != 0
  }

  /** inc_nlookup */
  function IncLookup(t: Tree, x: Ino): Tree
    requires x in t
  {
    var n := t[x];
    t[x := n.(nlookup := n.nlookup + 1, refctr := if n.nlookup == 0 then n.refctr + 1 else n.refctr)]
  }

  /** find_node: the named node if there is one, otherwise a new one with an unused id. */
  ghost function Found(t: Tree, l: Link, newId: Ino): Tree
    requires l.parent in t && newId !in t
  {
    match Lookup(t, l)
    case Some(x) => IncLookup(t, x)
    case None => AddLink(t[newId := Node(None, 1, 1, 0)], newId, l)
  }

  /** The "." lookup holds one extra reference. */
  function Pinned(t: Tree, x: Ino): Tree
    requires x in t
  {
    t[x := t[x].(refctr := t[x].refctr + 1)]
  }

  /** remove_node, rename_node and its hiding variant, on what the names resolve to now. */
  ghost function Removed(t: Tree, l: Link): Tree
    requires Forest(t)
  {
    match Lookup(t, l)
    case None => t
    case Some(x) => Unlink(t, x)
  }

  ghost function Moved(t: Tree, src: Link, dst: Link, hiding: bool): Tree
    requires Forest(t)
  {
    match Lookup(t, src)
    case None => t
    case Some(x) =>
      // a hidden name that got taken meanwhile is -EBUSY
      if hiding && Lookup(t, dst).Some? then t
      else Rename(t, x, Lookup(t, dst), dst)
  }

  // ----------------------------------------- each tree operation keeps the locks

  /** A node that carries no lock is neither the start nor the write node of any hold. */
  lemma UnlockedNotHeld(t: Tree, hs: Holds, x: Ino, i: nat)
    requires LocksMatch(t, hs) && x in t && x != ROOT && t[x].treelock == 0
    requires i < |hs| && hs[i].Some?
    ensures hs[i].value.req.start != x && hs[i].value.wnode != Some(x)
  {
    assert LockWord(t[x].treelock, Readers(hs, x), Writers(hs, x));
    assert HoldStands(t, hs[i].value);
    CountPositive(hs, i, x);
  }

  lemma ForgottenKeeps(t: Tree, pins: multiset<Ino>, hs: Holds, x: Ino, n: nat)
    requires Forest(t) && ExactCounts(t, pins) && LocksMatch(t, hs)
    requires x in t && x != ROOT && 1 <= n <= t[x].nlookup && !ForgetBlocked(t, x, n)
    ensures Forest(Forgotten(t, x, n)) && ExactCounts(Forgotten(t, x, n), pins)
    ensures LocksMatch(Forgotten(t, x, n), hs)
    ensures forall y :: y in t && t[y].treelock != 0 ==>
              y in Forgotten(t, x, n) && Forgotten(t, x, n)[y].link == t[y].link
  {
    var t1 := t[x := t[x].(nlookup := t[x].nlookup - n)];
    var gone := t[x].nlookup == n;
    SameLinks(t, t1);
    forall y | y in t1 ensures t1[y].refctr == References(t1, pins, y) + if y == x && gone then 1 else 0 {
      assert t[y].refctr == References(t, pins, y);
      assert Children(t1, y) == Children(t, y);
    }
    forall i | 0 <= i < |hs| && hs[i].Some?
      ensures Known(t1, hs[i].value.req.start)
      ensures hs[i].value.wnode.Some? ==> Known(t1, hs[i].value.wnode.value)
    {
      assert HoldStands(t, hs[i].value);
      if gone { UnlockedNotHeld(t, hs, x, i); }
    }
    ChainsStayPut(t, t1, hs);
    if gone {
      var line := LineageOf(t, x);
      LineageMembers(t, line);
      LineageFrame(t, t1, line);
      UnrefRestores(t1, pins, line);
      UnrefFrame(t1, line);
      CascadeSparesLocked(t1, pins, hs, line);
    }
  }

  lemma IncLookupKeeps(t: Tree, pins: multiset<Ino>, hs: Holds, x: Ino)
    requires Forest(t) && ExactCounts(t, pins) && LocksMatch(t, hs) && x in t
    ensures Forest(IncLookup(t, x)) && ExactCounts(IncLookup(t, x), pins) && LocksMatch(IncLookup(t, x), hs)
  {
    var t' := IncLookup(t, x);
    SameLinks(t, t');
    forall y | y in t' ensures t'[y].refctr == References(t', pins, y) {
      assert t[y].refctr == References(t, pins, y);
      assert Children(t', y) == Children(t, y);
    }
    forall i | 0 <= i < |hs| && hs[i].Some? ensures HoldStands(t, hs[i].value) { }
    ChainsStayPut(t, t', hs);
  }

  lemma NewNodeKeeps(t: Tree, pins: multiset<Ino>, hs: Holds, l: Link, newId: Ino)
    requires Forest(t) && ExactCounts(t, pins) && LocksMatch(t, hs)
    requires l.parent in t && newId !in t && Lookup(t, l).None?
    ensures var t' := AddLink(t[newId := Node(None, 1, 1, 0)], newId, l);
            Forest(t') && ExactCounts(t', pins) && LocksMatch(t', hs)
  {
    var t0 := t[newId := Node(None, 1, 1, 0)];
    assert HasLineage(t, l.parent);
    var tail := LineageOf(t, l.parent);
    LooseNode(t, pins, newId);
    LineageMembers(t, tail);
    LineageFrame(t, t0, tail);
    assert Lookup(t0, l).None?;
    AddLinkKeeps(t0, pins, newId, l, tail);
    forall i | 0 <= i < |hs| && hs[i].Some? ensures HoldStands(t, hs[i].value) { }
    ChainsStayPut(t, AddLink(t0, newId, l), hs);
  }

  /** A new node before it is named: one lookup, one reference. */
  lemma LooseNode(t: Tree, pins: multiset<Ino>, newId: Ino)
    requires Forest(t) && ExactCounts(t, pins) && newId !in t
    ensures Forest(t[newId := Node(None, 1, 1, 0)]) && ExactCounts(t[newId := Node(None, 1, 1, 0)], pins)
  {
    var t0 := t[newId := Node(None, 1, 1, 0)];
    forall y | y in t0 ensures HasLineage(t0, y) {
      if y == newId {
        assert IsLineage(t0, [newId]);
      } else {
        var p := LineageOf(t, y);
        LineageMembers(t, p);
        LineageFrame(t, t0, p);
      }
    }
    forall y, z | SameName(t0, y, z) ensures y == z { assert SameName(t, y, z); }
    forall y | y in t0 ensures t0[y].refctr == References(t0, pins, y) {
      if y == newId {
        forall c | c in t ensures t[c].link.Some? ==> t[c].link.value.parent != newId {
          if t[c].link.Some? { ParentHasLineage(t, c); }
        }
        assert Children(t0, y) == {};
      } else {
        assert t[y].refctr == References(t, pins, y);
        assert Children(t0, y) == Children(t, y);
      }
    }
  }

  lemma PinnedKeeps(t: Tree, pins: multiset<Ino>, hs: Holds, x: Ino)
    requires Forest(t) && ExactCounts(t, pins) && LocksMatch(t, hs) && x in t
    ensures var t' := Pinned(t, x);
            Forest(t') && ExactCounts(t', pins + multiset{x}) && LocksMatch(t', hs)
  {
    var t' := Pinned(t, x);
    SameLinks(t, t');
    forall y | y in t' ensures t'[y].refctr == References(t', pins + multiset{x}, y) {
      assert t[y].refctr == References(t, pins, y);
      assert Children(t', y) == Children(t, y);
    }
    forall i | 0 <= i < |hs| && hs[i].Some? ensures HoldStands(t, hs[i].value) { }
    ChainsStayPut(t, t', hs);
  }

  lemma UnpinnedKeeps(t: Tree, pins: multiset<Ino>, hs: Holds, x: Ino)
    requires Forest(t) && ExactCounts(t, pins) && LocksMatch(t, hs) && x in pins
    ensures HasLineage(t, x)
    ensures var t' := Unref(t, LineageOf(t, x));
      && Forest(t') && ExactCounts(t', pins - multiset{x}) && LocksMatch(t', hs)
      && forall y :: y in t && t[y].treelock != 0 ==> y in t' && t'[y].link == t[y].link
  {
    assert x in t;
    assert HasLineage(t, x);
    var line := LineageOf(t, x);
    var rest := pins - multiset{x};
    forall y | y in t ensures t[y].refctr == References(t, rest, y) + if y == x then 1 else 0 {
      assert t[y].refctr == References(t, pins, y);
    }
    UnrefRestores(t, rest, line);
    UnrefFrame(t, line);
    CascadeSparesLocked(t, rest, hs, line);
  }

  // -------------------- restructuring touches only what the request write-locked

  /** A write-locked node is read by nobody, so it lies on no granted chain. */
  lemma WriteHeld(t: Tree, hs: Holds, i: nat, x: Ino)
    requires LocksMatch(t, hs) && i < |hs| && hs[i].Some? && hs[i].value.wnode == Some(x)
    ensures x in t && x != ROOT && t[x].nlookup > 0
    ensures t[x].treelock == TREELOCK_WRITE && Readers(hs, x) == 0 && Writers(hs, x) == 1
    ensures forall j :: 0 <= j < |hs| && hs[j].Some? ==> x !in hs[j].value.chain + [ROOT]
  {
    assert HoldStands(t, hs[i].value);
    CountPositive(hs, i, x);
    LockWordMeans(t, hs, x);
    assert LockWord(t[x].treelock, Readers(hs, x), Writers(hs, x));
    forall j | 0 <= j < |hs| && hs[j].Some? ensures x !in hs[j].value.chain + [ROOT] {
      CountPositive(hs, j, x);
    }
  }

  /** Two holds of one request cannot have write-locked the same node. */
  lemma WriteHeldOnce(t: Tree, hs: Holds, i: nat, j: nat)
    requires LocksMatch(t, hs) && i < |hs| && j < |hs| && i != j && hs[i].Some? && hs[j].Some?
    requires hs[i].value.wnode.Some?
    ensures hs[i].value.wnode != hs[j].value.wnode
  {
    var x := hs[i].value.wnode.value;
    WriteHeld(t, hs, i, x);
    if hs[j].value.wnode == Some(x) {
      if i < j { TwoWriters(hs, i, j, x); } else { TwoWriters(hs, j, i, x); }
    }
  }

  /** Changing links and counts only, the links only of write-held nodes, keeps every lock. */
  lemma RelinkKeepsLocks(t: Tree, t': Tree, hs: Holds)
    requires LocksMatch(t, hs) && ROOT in t && t'.Keys == t.Keys
    requires forall y :: y in t ==> t'[y] == t[y].(refctr := t'[y].refctr, link := t'[y].link)
    requires forall y :: y in t && t'[y].link != t[y].link ==> Readers(hs, y) == 0 && y != ROOT
    ensures LocksMatch(t', hs)
  {
    forall i | 0 <= i < |hs| && hs[i].Some? ensures HoldStands(t, hs[i].value) { }
    ChainsStayPut(t, t', hs);
  }

  lemma RemovedKeeps(s: State, i: nat)
    requires Inv(s) && OwnedWrite(s, i) && NameSerialised(s, i)
    ensures var t' := Removed(s.nodes, HoldLink(s, i));
      && Forest(t') && ExactCounts(t', s.pins) && LocksMatch(t', s.holds) && t'.Keys == s.nodes.Keys
      && forall y :: y in t' && t'[y].link != s.nodes[y].link ==> s.holds[i].value.wnode == Some(y)
  {
    var t := s.nodes;
    var h := s.holds[i].value;
    assert HoldStands(t, h);
    var r := Lookup(t, HoldLink(s, i));
    if r.Some? {
      WriteHeld(t, s.holds, i, r.value);
      UnlinkKnownParent(t, s.pins, r.value);
      RelinkKeepsLocks(t, Unlink(t, r.value), s.holds);
    }
  }

  /** The locks a rename holds are what makes it safe: no node moves below itself, no chain is cut. */
  lemma LockedRenameReady(s: State, i: nat, j: nat, dst: Link, x: Ino)
    requires Inv(s) && OwnedWrite(s, i) && NameSerialised(s, i)
    requires j < |s.holds| && s.holds[j].Some? && dst.parent == s.holds[j].value.req.start
    requires Lookup(s.nodes, HoldLink(s, i)) == Some(x)
    requires Lookup(s.nodes, dst) == None ||
             (i != j && Lookup(s.nodes, dst) == s.holds[j].value.wnode)
    ensures RenameReady(s.nodes, x, Lookup(s.nodes, dst), dst, s.holds[j].value.chain + [ROOT])
    ensures Readers(s.holds, x) == 0
    ensures Lookup(s.nodes, dst).Some? ==> Readers(s.holds, Lookup(s.nodes, dst).value) == 0
  {
    var t := s.nodes;
    assert HoldStands(t, s.holds[i].value) && HoldStands(t, s.holds[j].value);
    WriteHeld(t, s.holds, i, x);
    var d := Lookup(t, dst);
    LookupFinds(t, x);
    if d.Some? {
      WriteHeld(t, s.holds, j, d.value);
      WriteHeldOnce(t, s.holds, i, j);
    }
  }

  lemma MovedKeeps(s: State, i: nat, j: nat, dst: Link, hiding: bool)
    requires Inv(s) && OwnedWrite(s, i) && NameSerialised(s, i)
    requires j < |s.holds| && s.holds[j].Some? && dst.parent == s.holds[j].value.req.start
    requires (hiding && i == j) ||
             (!hiding && i != j && Lookup(s.nodes, dst) in {None, s.holds[j].value.wnode})
    ensures var t' := Moved(s.nodes, HoldLink(s, i), dst, hiding);
      && Forest(t') && ExactCounts(t', s.pins) && LocksMatch(t', s.holds) && t'.Keys == s.nodes.Keys
      && forall y :: y in t' && t'[y].link != s.nodes[y].link ==>
           Some(y) in {s.holds[i].value.wnode, s.holds[j].value.wnode}
  {
    var t := s.nodes;
    var r := Lookup(t, HoldLink(s, i));
    if r.Some? && !(hiding && Lookup(t, dst).Some?) {
      var x := r.value;
      LockedRenameReady(s, i, j, dst, x);
      RenameKeeps(t, s.pins, x, Lookup(t, dst), dst, s.holds[j].value.chain + [ROOT]);
      RelinkKeepsLocks(t, Rename(t, x, Lookup(t, dst), dst), s.holds);
    }
  }
}
