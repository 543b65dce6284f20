/**
  The queue of waiting requests as the library runs it: each element remembers which of its paths are
  locked and what was write-locked for them, and is tried again, in place, whenever a path is released.
 */
module WakeUp {
  import opened Wrappers
  import opened PathTree
  import opened TreeOps
  import opened PathLocks
  import opened LockQueue
  import opened FuseLibrary

  /** struct lock_queue_element: a forget waiting for a node, or a request with one or two paths. */
  datatype Element =
    | ForgetElement(node: Ino, n: nat)
    | PathElement(first: PathReq, second: Option<PathReq>, firstLocked: bool, secondLocked: bool,
                  wnode1: Option<Ino>, wnode2: Option<Ino>)

  /** A lock flag and the remembered write node say what hold `h` is. */
  ghost predicate FlagMatches(hs: Holds, h: Option<nat>, locked: bool, wnode: Option<Ino>)
  {
    && locked == h.Some?
    && (h.Some? ==> h.value < |hs| && hs[h.value].Some? && hs[h.value].value.wnode == wnode)
  }

  /** The element is the waiter `w`. */
  ghost predicate Matches(hs: Holds, el: Element, w: Waiter)
  {
    match el
    case ForgetElement(node, n) => w == ForgetWaiter(node, n)
    case PathElement(first, second, l1, l2, w1, w2) =>
      && w.PathWaiter? && w.first == first && w.second == second
      && FlagMatches(hs, w.held1, l1, w1) && FlagMatches(hs, w.held2, l2, w2)
  }

  /** A request that try_get_path can be called with: its path fits the buffer, and a write node has a name. */
  ghost predicate Fitting(t: Tree, req: PathReq)
  {
    && (req.write ==> req.hasName)
    && HasLineage(t, req.start) && PathFits(t, LineageOf(t, req.start), req.name)
  }

  ghost predicate ElementFits(t: Tree, el: Element)
  {
    el.PathElement? ==> Fitting(t, el.first) && (el.second.Some? ==> Fitting(t, el.second.value))
  }

  lemma FittingSame(t: Tree, t': Tree, req: PathReq)
    requires Forest(t) && SameButLocks(t, t') && Fitting(t, req)
    ensures Fitting(t', req)
  {
    var p := LineageOf(t, req.start);
    LineageMembers(t, p);
    LineageFrame(t, t', p);
    LineageUnique(t', p, LineageOf(t', req.start));
    NamesFrame(t, t', p);
  }

  lemma ElementFitsSame(t: Tree, t': Tree, el: Element)
    requires Forest(t) && SameButLocks(t, t') && ElementFits(t, el)
    ensures ElementFits(t', el)
  {
    if el.PathElement? {
      FittingSame(t, t', el.first);
      if el.second.Some? { FittingSame(t, t', el.second.value); }
    }
  }

  /** What unlock_path asserts about the nodes of a hold is so whenever words and holds agree. */
  lemma HeldWords(t: Tree, hs: Holds, i: nat)
    requires Forest(t) && LocksMatch(t, hs) && i < |hs| && hs[i].Some?
    ensures var h := hs[i].value;
            && IsLineage(t, h.chain + [ROOT]) && (h.chain + [ROOT])[0] == h.req.start
            && ROOT !in h.chain && ReadLocked(t, h.chain)
            && (h.wnode.Some? ==> h.wnode.value in t && t[h.wnode.value].treelock == TREELOCK_WRITE
                                  && h.wnode.value !in h.chain + [ROOT])
  {
    var h := hs[i].value;
    assert HoldStands(t, h);
    ChainAvoidsRoot(t, h.chain);
    forall x | x in h.chain ensures t[x].treelock !in {0, TREELOCK_WAIT_OFFSET, TREELOCK_WRITE} {
      CountPositive(hs, i, x);
      assert LockWord(t[x].treelock, Readers(hs, x), Writers(hs, x));
    }
    if h.wnode.Some? {
      var x := h.wnode.value;
      CountPositive(hs, i, x);
      assert LockWord(t[x].treelock, Readers(hs, x), Writers(hs, x));
    }
  }

  /** unlock_path on a hold: the words change as the release of that hold says. */
  method ReleasePath(f: Fuse, nodeid: Ino, wnode: Option<Ino>, ghost k: Locks, ghost h: nat)
    requires f.Valid() && f.nodes == k.nodes && LocksOk(k) && h < |k.holds| && k.holds[h].Some?
    requires nodeid == k.holds[h].value.req.start && wnode == k.holds[h].value.wnode
    modifies f`nodes
    ensures f.Valid() && f.nodes == Drop(k, Some(h)).nodes
  {
    ghost var hold := k.holds[h].value;
    HeldWords(k.nodes, k.holds, h);
    ghost var p := hold.chain + [ROOT];
    assert p[..|hold.chain|] == hold.chain;
    DropKeeps(k, Some(h));
    f.UnlockPath(nodeid, wnode, None, p, |hold.chain|);
  }

  /** queue_element_unlock */
  method ElementUnlock(f: Fuse, el: Element, ghost k: Locks, ghost w: Waiter) returns (el': Element)
    requires f.Valid() && f.nodes == k.nodes && Visitable(k, w) && el.PathElement? && Matches(k.holds, el, w)
    modifies f`nodes
    ensures f.Valid() && f.nodes == DropAll(k, w).nodes
    ensures el' == el.(firstLocked := false, secondLocked := false)
    ensures Matches(DropAll(k, w).holds, el', w.(held1 := None, held2 := None))
  {
    el' := el;
    ghost var k1 := Drop(k, w.held1);
    DropKeeps(k, w.held1);
    DropFirstKeeps(k, w);
    if el.firstLocked {
      ReleasePath(f, el.first.start, el.wnode1, k, w.held1.value);
      el' := el'.(firstLocked := false);
    }
    if el.secondLocked {
      ReleasePath(f, el.second.value.start, el.wnode2, k1, w.held2.value);
      el' := el'.(secondLocked := false);
    }
  }

  /** try_get_path for one path of an element. */
  method TryPath(f: Fuse, req: PathReq, ghost k: Locks) returns (err: Outcome, wnode: Option<Ino>)
    requires f.Valid() && f.nodes == k.nodes && LocksOk(k) && ReqKnown(k.nodes, req) && Live(k.holds) + 1 < INT_MAX
    requires Fitting(k.nodes, req)
    modifies f`nodes
    ensures var (k1, h, o) := TryHold(k, req);
            f.Valid() && f.nodes == k1.nodes && err == o && FlagMatches(k1.holds, h, err == Granted, wnode)
  {
    TryHoldKeeps(k, req);
    var path;
    err, path, wnode := f.TryGetPath(req, true);
  }

  /** The part of queue_element_wakeup for the first path. */
  method WakeFirst(f: Fuse, el: Element, ghost k: Locks, ghost w: Waiter) returns (el': Element, err: Outcome)
    requires f.Valid() && f.nodes == k.nodes && Visitable(k, w) && el.PathElement? && Matches(k.holds, el, w)
    requires ElementFits(k.nodes, el)
    modifies f`nodes
    ensures var (k1, w1, o) := LockFirst(k, w);
            f.Valid() && f.nodes == k1.nodes && err == o && el'.PathElement? && Matches(k1.holds, el', w1)
    ensures el'.first == el.first && el'.second == el.second
  {
    el', err := el, Granted;
    LockFirstKeeps(k, w);
    if !el.firstLocked {
      TryHoldKeeps(k, w.first);
      var wnode;
      err, wnode := TryPath(f, el.first, k);
      el' := el.(firstLocked := err == Granted, wnode1 := wnode);
    }
  }

  /** The part for the second one. */
  method WakeSecond(f: Fuse, el: Element, ghost k: Locks, ghost w: Waiter) returns (el': Element, err: Outcome)
    requires f.Valid() && f.nodes == k.nodes && Visitable(k, w) && el.PathElement? && Matches(k.holds, el, w)
    requires ElementFits(k.nodes, el)
    modifies f`nodes
    ensures var (k1, w1, o) := LockSecond(k, w);
            f.Valid() && f.nodes == k1.nodes && err == o && el'.PathElement? && Matches(k1.holds, el', w1)
  {
    el', err := el, Granted;
    LockSecondKeeps(k, w);
    if !el.secondLocked && el.second.Some? {
      TryHoldKeeps(k, w.second.value);
      var wnode;
      err, wnode := TryPath(f, el.second.value, k);
      el' := el.(secondLocked := err == Granted, wnode2 := wnode);
    }
  }

  /** The outcome of a visit, as the waiting thread is told it. */
  ghost predicate Told(hs: Holds, el: Element, done: bool, err: Outcome, v: Verdict)
  {
    match v
    case Waiting(w) => !done && Matches(hs, el, w)
    case Served(_) => done && err == Granted
    case Refused => done && err == NoEntry
  }

  /** What follows in queue_element_wakeup once the first path has not failed for good. */
  method WakeUpRest(f: Fuse, el: Element, first: bool, ghost k: Locks, ghost w: Waiter)
      returns (el': Element, done: bool, err: Outcome)
    requires f.Valid() && f.nodes == k.nodes && Visitable(k, w) && el.PathElement? && Matches(k.holds, el, w)
    requires ElementFits(k.nodes, el)
    modifies f`nodes
    ensures var (k', v) := WakeRest(k, w, first);
            f.Valid() && f.nodes == k'.nodes && Told(k'.holds, el', done, err, v)
  {
    ghost var k2, w2, o2 := LockSecond(k, w).0, LockSecond(k, w).1, LockSecond(k, w).2;
    LockSecondKeeps(k, w);
    el', err := WakeSecond(f, el, k, w);
    if err == NoEntry {
      el' := ElementUnlock(f, el', k2, w2);
      return el', true, NoEntry;
    }
    if el'.firstLocked && (el'.secondLocked || el'.second.None?) {
      return el', true, Granted;
    }
    if !first {
      el' := ElementUnlock(f, el', k2, w2);
    }
    done := false;
  }

  /** queue_element_wakeup */
  method ElementWakeUp(f: Fuse, el: Element, first: bool, ghost k: Locks, ghost w: Waiter)
      returns (el': Element, done: bool, err: Outcome)
    requires f.Valid() && f.nodes == k.nodes && Visitable(k, w) && Matches(k.holds, el, w) && ElementFits(k.nodes, el)
    modifies f`nodes
    ensures var (k', v) := WakeOne(k, w, first);
            f.Valid() && f.nodes == k'.nodes && Told(k'.holds, el', done, err, v)
  {
    if el.ForgetElement? {
      return el, false, Again;
    }
    ghost var k1, w1 := LockFirst(k, w).0, LockFirst(k, w).1;
    LockFirstKeeps(k, w);
    el', err := WakeFirst(f, el, k, w);
    if err == NoEntry {
      el' := ElementUnlock(f, el', k1, w1);
      return el', true, NoEntry;
    }
    ElementFitsSame(k.nodes, k1.nodes, el);
    el', done, err := WakeUpRest(f, el', first, k1, w1);
  }

  // ------------------------------------------------------------- the whole queue

  ghost predicate AllMatch(hs: Holds, els: seq<Element>, ws: seq<Waiter>)
  {
    |els| == |ws| && forall i :: 0 <= i < |els| ==> Matches(hs, els[i], ws[i])
  }

  ghost predicate AllFit(t: Tree, els: seq<Element>)
  {
    forall i :: 0 <= i < |els| ==> ElementFits(t, els[i])
  }

  /** What the waiting thread is told after a visit: nothing while it must keep waiting. */
  function Answer(v: Verdict): Option<Outcome>
  {
    match v
    case Waiting(_) => None
    case Served(_) => Some(Granted)
    case Refused => Some(NoEntry)
  }

  /** The answers a pass over the queue gives, element by element. */
  ghost function Answers(k: Locks, kept: seq<Waiter>, rest: seq<Waiter>): seq<Option<Outcome>>
    requires QueueOk(k, kept + rest)
    decreases |rest|
  {
    if rest == [] then []
    else
      HeadVisitable(k, kept, rest);
      var (k1, v) := WakeOne(k, rest[0], kept == []);
      VisitKeepsQueue(k, kept, rest);
      [Answer(v)] + Answers(k1, kept + AfterVisit(v), rest[1..])
  }

  /** An element that shares no hold with the visited one still is the waiter it was. */
  lemma MatchesFrame(k: Locks, w: Waiter, first: bool, k1: Locks, v: Verdict, el: Element, u: Waiter)
    requires VisitEffect(k, w, first, k1, v) && Matches(k.holds, el, u) && HandlesOf(u) !! HandlesOf(w)
    ensures Matches(k1.holds, el, u)
  {
    if u.PathWaiter? {
      assert u.held1.Some? ==> u.held1.value in HandlesOf(u);
      assert u.held2.Some? ==> u.held2.value in HandlesOf(u);
    }
  }

  /** A visit leaves every other element the waiter it was, since only the head of the queue holds a path. */
  lemma VisitKeepsMatches(k: Locks, kept: seq<Waiter>, rest: seq<Waiter>, k1: Locks, v: Verdict,
                          stay: seq<Element>, todo: seq<Element>)
    requires QueueOk(k, kept + rest) && rest != []
    requires VisitEffect(k, rest[0], kept == [], k1, v)
    requires AllMatch(k.holds, stay, kept) && AllMatch(k.holds, todo, rest)
    ensures AllMatch(k1.holds, stay, kept) && AllMatch(k1.holds, todo[1..], rest[1..])
  {
    var q := kept + rest;
    assert q[|kept|] == rest[0];
    forall i | 0 <= i < |kept| ensures Matches(k1.holds, stay[i], kept[i]) {
      assert q[|kept|].HoldsNothing();
      MatchesFrame(k, rest[0], kept == [], k1, v, stay[i], kept[i]);
    }
    forall i | 1 <= i < |rest| ensures Matches(k1.holds, todo[i], rest[i]) {
      assert q[|kept| + i] == rest[i] && rest[i].HoldsNothing();
      MatchesFrame(k, rest[0], kept == [], k1, v, todo[i], rest[i]);
    }
  }

  lemma AllFitSame(t: Tree, t': Tree, els: seq<Element>)
    requires Forest(t) && SameButLocks(t, t') && AllFit(t, els)
    ensures AllFit(t', els)
  {
    forall i | 0 <= i < |els| ensures ElementFits(t', els[i]) {
      ElementFitsSame(t, t', els[i]);
    }
  }

  /** Elements kept and elements still to visit are the waiters of a queue that is in order. */
  ghost predicate Passing(k: Locks, stay: seq<Waiter>, rest: seq<Waiter>, kept: seq<Element>, todo: seq<Element>)
  {
    && QueueOk(k, stay + rest)
    && AllMatch(k.holds, kept, stay) && AllMatch(k.holds, todo, rest) && AllFit(k.nodes, todo)
  }

  lemma VisitPasses(k: Locks, stay: seq<Waiter>, rest: seq<Waiter>, k1: Locks, v: Verdict,
                    kept: seq<Element>, todo: seq<Element>)
    requires Passing(k, stay, rest, kept, todo) && todo != []
    requires Visitable(k, rest[0]) && (k1, v) == WakeOne(k, rest[0], stay == [])
    ensures v.Waiting? ==>
      forall el :: Matches(k1.holds, el, v.w) ==> Passing(k1, stay + [v.w], rest[1..], kept + [el], todo[1..])
    ensures !v.Waiting? ==> Passing(k1, stay, rest[1..], kept, todo[1..])
  {
    hide WakeOne, Live, Forest, LocksMatch, WaiterStands, WaiterKnown, Matches, ElementFits, SameButLocks, TotalNeed;
    VisitKeepsQueue(k, stay, rest);
    VisitKeepsMatches(k, stay, rest, k1, v, kept, todo);
    AllFitSame(k.nodes, k1.nodes, todo);
    if !v.Waiting? { assert stay + AfterVisit(v) == stay; }
  }

  /** One turn of wake_up_queued: the first of `todo` is tried, and is kept unless it is done. */
  method VisitNext(f: Fuse, kept: seq<Element>, todo: seq<Element>,
                   ghost k: Locks, ghost stay: seq<Waiter>, ghost rest: seq<Waiter>)
      returns (kept': seq<Element>, answer: Option<Outcome>)
    requires f.Valid() && f.nodes == k.nodes && Passing(k, stay, rest, kept, todo) && todo != []
    requires Visitable(k, rest[0])
    modifies f`nodes
    ensures var (k1, v) := WakeOne(k, rest[0], stay == []);
            && f.Valid() && f.nodes == k1.nodes && answer == Answer(v)
            && Passing(k1, stay + AfterVisit(v), rest[1..], kept', todo[1..])
  {
    ghost var k1, v := WakeOne(k, rest[0], stay == []).0, WakeOne(k, rest[0], stay == []).1;
    VisitPasses(k, stay, rest, k1, v, kept, todo);
    var el, done, err := ElementWakeUp(f, todo[0], kept == [], k, rest[0]);
    kept' := if done then kept else kept + [el];
    answer := if done then Some(err) else None;
    assert stay + [] == stay;
  }

  /** The pass so far, and what is left of it, make up the pass from `k0` over `ws`. */
  ghost predicate Midway(k0: Locks, ws: seq<Waiter>, k: Locks, stay: seq<Waiter>, rest: seq<Waiter>,
                         answers: seq<Option<Outcome>>)
    requires QueueOk(k0, [] + ws) && QueueOk(k, stay + rest)
  {
    && Wake(k, stay, rest).0 == Wake(k0, [], ws).0 && Wake(k, stay, rest).1 == Wake(k0, [], ws).1
    && answers + Answers(k, stay, rest) == Answers(k0, [], ws)
  }

  lemma MidwayStep(k0: Locks, ws: seq<Waiter>, k: Locks, stay: seq<Waiter>, rest: seq<Waiter>,
                   answers: seq<Option<Outcome>>)
    requires QueueOk(k0, [] + ws) && QueueOk(k, stay + rest) && rest != []
    requires Midway(k0, ws, k, stay, rest, answers)
    ensures Visitable(k, rest[0])
    ensures var (k1, v) := WakeOne(k, rest[0], stay == []);
            && QueueOk(k1, stay + AfterVisit(v) + rest[1..])
            && Midway(k0, ws, k1, stay + AfterVisit(v), rest[1..], answers + [Answer(v)])
  {
    VisitKeepsQueue(k, stay, rest);
    var (k1, v) := WakeOne(k, rest[0], stay == []);
    var tail := Answers(k1, stay + AfterVisit(v), rest[1..]);
    assert answers + ([Answer(v)] + tail) == answers + [Answer(v)] + tail;
  }

  /** wake_up_queued: every element is tried once, in order, and the ones not done stay in the queue. */
  method WakeUpQueued(f: Fuse, queue: seq<Element>, ghost k: Locks, ghost ws: seq<Waiter>)
      returns (kept: seq<Element>, answers: seq<Option<Outcome>>)
    requires f.Valid() && f.nodes == k.nodes && Passing(k, [], ws, [], queue)
    modifies f`nodes
    ensures var (k', q, own) := Wake(k, [], ws);
            f.Valid() && f.nodes == k'.nodes && AllMatch(k'.holds, kept, q)
    ensures answers == Answers(k, [], ws)
  {
    var qe := queue;
    kept, answers := [], [];
    ghost var now, stay, rest: seq<Waiter> := k, [], ws;
    while qe != []
      invariant f.Valid() && f.nodes == now.nodes
      invariant Passing(now, stay, rest, kept, qe)
      invariant Midway(k, ws, now, stay, rest, answers)
      decreases |qe|
    {
      MidwayStep(k, ws, now, stay, rest, answers);
      ghost var k1, v := WakeOne(now, rest[0], stay == []).0, WakeOne(now, rest[0], stay == []).1;
      var answer;
      kept, answer := VisitNext(f, kept, qe, now, stay, rest);
      answers := answers + [answer];
      qe := qe[1..];
      now, stay, rest := k1, stay + AfterVisit(v), rest[1..];
    }
  }
}
