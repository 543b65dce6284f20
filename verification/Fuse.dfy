/**
  The critical sections as the library runs them: loops over parent pointers that change lock
  words and counts in place.  Each method is proved against the function of `PathTree`, `TreeOps`
  or `PathLocks` that the run theorems are about.
 */
module FuseLibrary {
  import opened Wrappers
  import opened PathTree
  import opened TreeOps
  import opened PathLocks
  import opened FuseState
  import opened PathBuffer

  /** The words of a chain that a running request holds: read-locked, possibly with the waiter mark. */
  ghost predicate ReadLocked(t: Tree, chain: seq<Ino>)
  {
    forall x :: x in chain ==>
      x in t && t[x].treelock !in {0, TREELOCK_WAIT_OFFSET, TREELOCK_WRITE}
  }

  /** The names a walk may have to write, all of which fit the path buffer. */
  ghost predicate PathFits(t: Tree, p: seq<Ino>, name: string)
  {
    |PathText(Names(t, p))| + |name| + 2 <= UINT_MAX
  }

  /** The name table knows every linked node except those being deleted. */
  ghost predicate Tabled(names: map<Link, Ino>, t: Tree, dying: set<Ino>)
  {
    && (forall l :: l in names ==> names[l] in t && names[l] !in dying && t[names[l]].link == Some(l))
    && (forall x :: x in t && x !in dying && t[x].link.Some? ==> t[x].link.value in names && names[t[x].link.value] == x)
  }

  class Fuse {
    /** The id table, and the fields of the nodes in it. */
    var nodes: Tree
    /** The name table. */
    var names: map<Link, Ino>

    ghost predicate NamesMatch(dying: set<Ino>)
      reads this
    {
      Tabled(names, nodes, dying)
    }

    ghost predicate Valid()
      reads this
    {
      Forest(nodes) && NamesMatch({})
    }

    method LookupNode(parent: Ino, name: string) returns (r: Option<Ino>)
      requires Valid()
      ensures r == Lookup(nodes, Link(parent, name))
    {
      var l := Link(parent, name);
      if l in names {
        LookupFinds(nodes, names[l]);
        r := Some(names[l]);
      } else {
        r := None;
      }
    }

    /**
      unlock_path: drops the write lock, then one read lock on each node from `nodeid` up to but not
      including `end` (or the root).  The nodes walked are `chain`.
     */
    method UnlockPath(nodeid: Ino, wnode: Option<Ino>, end: Option<Ino>, ghost p: seq<Ino>, ghost k: nat)
      requires IsLineage(nodes, p) && p[0] == nodeid && k < |p|
      requires forall i :: 0 <= i < k ==> p[i] != ROOT
      requires end == Some(p[k]) || (end == None && p[k] == ROOT)
      requires wnode.Some? ==> wnode.value in nodes && nodes[wnode.value].treelock == TREELOCK_WRITE
      requires wnode.Some? ==> wnode.value !in p
      requires ReadLocked(nodes, p[..k])
      modifies this`nodes
      ensures nodes == UnlockChain(if wnode.Some? then SetLock(old(nodes), wnode.value, 0) else old(nodes), p[..k])
    {
      if wnode.Some? {
        nodes := SetLock(nodes, wnode.value, 0);
        LineageMembers(old(nodes), p);
        LineageFrame(old(nodes), nodes, p);
      }
      UnlockWalk(nodeid, end, p, k);
    }

    method UnlockWalk(nodeid: Ino, end: Option<Ino>, ghost p: seq<Ino>, ghost k: nat)
      requires IsLineage(nodes, p) && p[0] == nodeid && k < |p|
      requires forall i :: 0 <= i < k ==> p[i] != ROOT
      requires end == Some(p[k]) || (end == None && p[k] == ROOT)
      requires ReadLocked(nodes, p[..k])
      modifies this`nodes
      ensures nodes == UnlockChain(old(nodes), p[..k])
    {
      ghost var t := nodes;
      LineageDistinct(t, p, k);
      var node := nodeid;
      ghost var i := 0;
      while Some(node) != end && node != ROOT
        invariant 0 <= i <= k && node == p[i]
        invariant nodes == UnlockChain(t, p[..i])
        decreases k - i
      {
        LineageDistinct(t, p, i);
        LineageMembers(t, p);
        ChainStep(t, p, i);
        assert p[i] in p[..k];
        var word := nodes[node].treelock - 1;
        if word == TREELOCK_WAIT_OFFSET {
          word := 0;
        }
        nodes := SetLock(nodes, node, word);
        node := nodes[node].link.value.parent;
        i := i + 1;
      }
    }
  
    /** One node of the upward walk: `done` when it cannot be passed. */
    method WalkStep(node: Ino, needLock: bool, pb: PathBuf, ghost p: seq<Ino>, ghost k: nat, ghost t: Tree,
            ghost text: string)
        returns (err: Outcome, done: bool, next: Ino)
      requires IsLineage(t, p) && k < |p| && node == p[k] != ROOT && Walked(t, nodes, p, k, needLock)
      requires pb.Valid() && |PathText(Names(t, p))| + |text| + 1 <= UINT_MAX && pb.Text() == Spelled(t, p, k, text)
      modifies this`nodes, pb, pb.buf
      ensures done ==> nodes == old(nodes) && Stopped(t, p, k, needLock, err) && err != Granted
      ensures !done ==> k + 1 < |p| && next == p[k + 1] && Walked(t, nodes, p, k + 1, needLock)
      ensures pb.Valid() && (pb.buf == old(pb.buf) || fresh(pb.buf))
      ensures !done ==> pb.Text() == Spelled(t, p, k + 1, text)
    {
      WalkHere(t, nodes, p, k, needLock);
      err, done, next := Granted, true, node;
      if nodes[node].link.None? {
        err := NoEntry;
        return;
      }
      SpelledNext(t, p, k, text);
      pb.AddName(nodes[node].link.value.name);
      if needLock && nodes[node].treelock < 0 {
        err := Again;
        return;
      }
      WalkNext(t, nodes, p, k, needLock);
      if needLock {
        nodes := SetLock(nodes, node, nodes[node].treelock + 1);
      }
      done, next := false, nodes[node].link.value.parent;
    }

    /**
      The upward walk of try_get_path: prepends the names to `pb` and read-locks the nodes, until it
      reaches the root or an obstacle at `stop`, the `k`-th node of the lineage `p`.
     */
    method LockWalk(nodeid: Ino, needLock: bool, pb: PathBuf, ghost p: seq<Ino>)
        returns (err: Outcome, stop: Ino, ghost k: nat)
      requires IsLineage(nodes, p) && p[0] == nodeid
      requires pb.Valid() && |PathText(Names(nodes, p))| + |pb.Text()| + 1 <= UINT_MAX
      modifies this`nodes, pb, pb.buf
      ensures k < |p| && stop == p[k] && Walked(old(nodes), nodes, p, k, needLock)
      ensures Stopped(old(nodes), p, k, needLock, err)
      ensures err == Granted ==> pb.Valid() && pb.Text() == Spelled(old(nodes), p, k, old(pb.Text()))
    {
      hide Spelled, Names, PathText;
      ghost var t, text := nodes, pb.Text();
      var node := nodeid;
      k := 0;
      WalkStart(t, p, needLock, text);
      while node != ROOT
        invariant k < |p| && node == p[k] && Walked(t, nodes, p, k, needLock)
        invariant pb.Valid() && (pb.buf == old(pb.buf) || fresh(pb.buf))
        invariant pb.Text() == Spelled(t, p, k, text)
        decreases |p| - k
      {
        var done, next;
        err, done, next := WalkStep(node, needLock, pb, p, k, t, text);
        if done {
          return err, node, k;
        }
        node := next;
        k := k + 1;
      }
      err, stop := Granted, node;
    }

    /** The walk, and backing out of it (and of the write lock) when it is stopped. */
    method LockAbove(nodeid: Ino, wnode: Option<Ino>, needLock: bool, pb: PathBuf, ghost p: seq<Ino>)
        returns (err: Outcome)
      requires IsLineage(nodes, p) && p[0] == nodeid && ROOT in nodes && nodes[ROOT].link.None?
      requires pb.Valid() && |PathText(Names(nodes, p))| + |pb.Text()| + 1 <= UINT_MAX
      requires wnode.Some? ==> needLock && wnode.value in nodes && wnode.value !in p
      requires wnode.Some? ==> nodes[wnode.value].treelock == TREELOCK_WRITE
      modifies this`nodes, pb, pb.buf
      ensures needLock ==> err == WalkOutcome(old(nodes), p)
      ensures !needLock ==> (err == Granted <==> PathEndsAtRoot(old(nodes), p))
      ensures nodes == if err == Granted then (if needLock then LockChain(old(nodes), p[..|p| - 1]) else old(nodes))
                       else if wnode.Some? then SetLock(old(nodes), wnode.value, 0) else old(nodes)
      ensures err == Granted ==> PathEndsAtRoot(old(nodes), p) && pb.Valid()
      ensures err == Granted ==> pb.Text() == Spelled(old(nodes), p, |p| - 1, old(pb.Text()))
    {
      ghost var t := nodes;
      var stop;
      ghost var k;
      err, stop, k := LockWalk(nodeid, needLock, pb, p);
      StoppedAt(t, p, k);
      if err != Granted && needLock {
        BackOut(t, nodes, p, k);
        UnlockPath(nodeid, wnode, Some(stop), p, k);
        UndoWrite(t, wnode, p, k);
      }
    }

    /** The first part of try_get_path: write-locks the child to be restructured, or marks that we wait for it. */
    method TryWriteLock(req: PathReq) returns (busy: bool, wnode: Option<Ino>)
      requires Valid()
      modifies this`nodes
      ensures wnode == WriteNode(old(nodes), req)
      ensures (nodes, busy) == WriteTried(old(nodes), wnode)
    {
      wnode, busy := None, false;
      if req.write {
        wnode := LookupNode(req.start, req.name);
        if wnode.Some? {
          var word := nodes[wnode.value].treelock;
          if word != 0 {
            if word > 0 {
              nodes := SetLock(nodes, wnode.value, word + TREELOCK_WAIT_OFFSET);
            }
            busy := true;
          } else {
            nodes := SetLock(nodes, wnode.value, TREELOCK_WRITE);
          }
        }
      }
    }

    /**
      try_get_path: write-locks the named child if asked to, then read-locks every node from the start
      node up to the root while it spells out the path; at any obstacle it undoes what it did.
     */
    method TryGetPath(req: PathReq, needLock: bool)
        returns (err: Outcome, path: string, wnode: Option<Ino>)
      requires Valid() && HasLineage(nodes, req.start)
      requires req.write ==> needLock && req.hasName
      requires PathFits(nodes, LineageOf(nodes, req.start), req.name)
      modifies this`nodes
      ensures needLock ==> (nodes, err) == TryLock(old(nodes), req)
      ensures !needLock ==> nodes == old(nodes) && (err == Granted <==> PathOf(nodes, req.start).Some?)
      ensures err == Granted ==> wnode == WriteNode(old(nodes), req) && PathOf(old(nodes), req.start).Some?
      ensures err == Granted ==>
        path == FullPath(PathOf(old(nodes), req.start).value + if req.hasName then [req.name] else [])
    {
      ghost var t := nodes;
      ghost var p := LineageOf(t, req.start);
      ghost var tail := if req.hasName then [req.name] else [];
      var pb := new PathBuf();
      if req.hasName {
        pb.AddName(req.name);
      }
      assert pb.Text() == PathText(tail);
      path := "";
      var busy;
      busy, wnode := TryWriteLock(req);
      if busy {
        return Again, path, wnode;
      }
      err, path := WalkPath(req, wnode, needLock, pb, t, p, tail);
    }

    /** The second part of try_get_path, with the child write-locked. */
    method WalkPath(req: PathReq, wnode: Option<Ino>, needLock: bool, pb: PathBuf, ghost t: Tree,
            ghost p: seq<Ino>, ghost tail: seq<string>)
        returns (err: Outcome, path: string)
      requires Forest(t) && HasLineage(t, req.start) && p == LineageOf(t, req.start)
      requires wnode == WriteNode(t, req) && (nodes, false) == WriteTried(t, wnode) && (wnode.Some? ==> needLock)
      requires |PathText(Names(t, p))| + |PathText(tail)| + 1 <= UINT_MAX && pb.Valid() && pb.Text() == PathText(tail)
      modifies this`nodes, pb, pb.buf
      ensures needLock ==> (nodes, err) == TryLock(t, req)
      ensures !needLock ==> nodes == t && (err == Granted <==> PathOf(t, req.start).Some?)
      ensures err == Granted ==> PathOf(t, req.start).Some? && path == FullPath(PathOf(t, req.start).value + tail)
    {
      ghost var t1 := nodes;
      path := "";
      WriteLocked(t, t1, req, p);
      err := LockAbove(req.start, wnode, needLock, pb, p);
      TryLockAssembled(t, t1, req, p);
      SpelledPath(t, p, tail);
      if err == Granted {
        path := pb.Finish();
      }
    }

    // -------------------------------------------------- references and names

    /**
      unref_node with delete_node, unhash_name and unhash_id: drops a reference on `x`; at zero the
      node loses its name, its parent a reference, and then it leaves the id table and is freed.
      `line` is the lineage of `x`, `dying` the nodes further down that are being freed already.
     */
    method UnrefNode(x: Ino, ghost line: seq<Ino>, ghost dying: set<Ino>)
      requires IsLineage(nodes, line) && line[0] == x
      requires NamesMatch(dying) && dying !! Members(line)
      requires forall y :: y in line ==> y in nodes && nodes[y].refctr > 0
      requires forall y :: y in line && y !in Unref(nodes, line) ==> nodes[y].treelock == 0
      modifies this
      ensures nodes == Unref(old(nodes), line)
      ensures NamesMatch(dying)
      decreases |line|
    {
      hide Unref, HasLineage, Tabled, Members;
      ghost var t, k := nodes, names;
      UnrefHead(t, line);
      nodes := nodes[x := nodes[x].(refctr := nodes[x].refctr - 1)];
      ghost var n := nodes[x];
      TabledCount(names, t, x, n, dying);
      if nodes[x].refctr == 0 {
        DeletedWith(t, line);
        assert nodes[x].treelock == 0;
        if nodes[x].link.Some? {
          var l := nodes[x].link.value;
          names := names - {l};
          DeleteReady(t, n, line, dying);
          TabledCut(k, nodes, x, l, dying);
          UnrefNode(l.parent, line[1..], dying + {x});
          ghost var u := nodes;
          nodes := SetLink(nodes, x, None);
          TabledDying(names, u, nodes, x, dying);
        }
        TabledGone(names, nodes, x, dying);
        nodes := nodes - {x};
      }
    }

    /** unhash_name on a node that stays: it loses its name, and its parent, which stays too, a reference. */
    method UnhashName(x: Ino, ghost pins: multiset<Ino>)
      requires Valid() && ExactCounts(nodes, pins) && x in nodes && x != ROOT && nodes[x].link.Some?
      requires Known(nodes, nodes[x].link.value.parent)
      modifies this
      ensures Valid() && ExactCounts(nodes, pins)
      ensures nodes == Unlink(old(nodes), x)
    {
      ghost var t := nodes;
      var l := nodes[x].link.value;
      ghost var line := UnhashReady(t, pins, x);
      names := names - {l};
      UnrefNode(l.parent, line, {x});
      nodes := SetLink(nodes, x, None);
    }

    /** hash_name: an unnamed node gets a free name in a live directory. */
    method HashName(x: Ino, l: Link)
      requires NamesMatch({}) && x in nodes && nodes[x].link.None? && l.parent in nodes && l !in names
      modifies this
      ensures NamesMatch({}) && nodes == AddLink(old(nodes), x, l) && names == old(names)[l := x]
    {
      nodes := nodes[l.parent := nodes[l.parent].(refctr := nodes[l.parent].refctr + 1)];
      nodes := SetLink(nodes, x, Some(l));
      names := names[l := x];
    }

    /** remove_node */
    method RemoveNode(dir: Ino, name: string, ghost pins: multiset<Ino>)
      requires Valid() && ExactCounts(nodes, pins) && Known(nodes, dir)
      modifies this
      ensures Valid() && ExactCounts(nodes, pins) && nodes == Removed(old(nodes), Link(dir, name))
    {
      var r := LookupNode(dir, name);
      if r.Some? {
        UnhashName(r.value, pins);
      }
    }

    /** rename_node, and hide_node's variant of it that gives up (busy) when the hidden name is taken. */
    method RenameNode(src: Link, dst: Link, hiding: bool, ghost pins: multiset<Ino>, ghost tail: seq<Ino>)
        returns (busy: bool)
      requires Valid() && ExactCounts(nodes, pins)
      requires var r := Lookup(nodes, src);
        r.Some? && !(hiding && Lookup(nodes, dst).Some?) ==> RenameReady(nodes, r.value, Lookup(nodes, dst), dst, tail)
      modifies this
      ensures Valid() && ExactCounts(nodes, pins)
      ensures nodes == Moved(old(nodes), src, dst, hiding)
      ensures busy <==> Lookup(old(nodes), src).Some? && hiding && Lookup(old(nodes), dst).Some?
    {
      ghost var t := nodes;
      busy := false;
      var node := LookupNode(src.parent, src.name);
      var newnode := LookupNode(dst.parent, dst.name);
      if node.None? {
        return;
      }
      if newnode.Some? && hiding {
        busy := true;
        return;
      }
      var x := node.value;
      ghost var t2 := RenameUnlinks(t, pins, x, newnode, dst, tail);
      if newnode.Some? {
        UnlinkKnownParent(t, pins, newnode.value);
        UnhashName(newnode.value, pins);
      }
      UnhashName(x, pins);
      RenameIsTwoUnlinks(t, nodes, pins, x, newnode, dst, tail);
      AddLinkKeeps(nodes, pins, x, dst, tail);
      assert dst !in names;
      HashName(x, dst);
    }

    /** inc_nlookup */
    method IncNlookup(x: Ino)
      requires x in nodes
      modifies this`nodes
      ensures nodes == IncLookup(old(nodes), x)
    {
      if nodes[x].nlookup == 0 {
        nodes := nodes[x := nodes[x].(refctr := nodes[x].refctr + 1)];
      }
      nodes := nodes[x := nodes[x].(nlookup := nodes[x].nlookup + 1)];
    }

    /** find_node: `newId` is what next_id would return, an id not in use. */
    method FindNode(parent: Ino, name: string, newId: Ino, ghost pins: multiset<Ino>, ghost hs: Holds)
        returns (x: Ino)
      requires Valid() && ExactCounts(nodes, pins) && LocksMatch(nodes, hs)
      requires parent in nodes && newId !in nodes
      modifies this
      ensures Valid() && ExactCounts(nodes, pins) && LocksMatch(nodes, hs)
      ensures nodes == Found(old(nodes), Link(parent, name), newId)
      ensures x in nodes && nodes[x].link == Some(Link(parent, name)) && nodes[x].nlookup > 0
    {
      ghost var t := nodes;
      var l := Link(parent, name);
      var r := LookupNode(parent, name);
      if r.Some? {
        x := r.value;
        IncLookupKeeps(t, pins, hs, x);
        IncNlookup(x);
      } else {
        x := newId;
        NewNodeKeeps(t, pins, hs, l, newId);
        nodes := nodes[x := Node(None, 0, 0, 0)];
        HashName(x, l);
        IncNlookup(x);
        NewNodeCounted(t, newId, l);
      }
    }

    /** forget_node, once the node is free to be forgotten. */
    method ForgetNode(x: Ino, n: nat, ghost pins: multiset<Ino>, ghost hs: Holds)
      requires Valid() && ExactCounts(nodes, pins) && LocksMatch(nodes, hs)
      requires x in nodes && x != ROOT && 1 <= n <= nodes[x].nlookup && !ForgetBlocked(nodes, x, n)
      modifies this
      ensures Valid() && ExactCounts(nodes, pins) && LocksMatch(nodes, hs)
      ensures nodes == Forgotten(old(nodes), x, n)
    {
      ghost var t := nodes;
      ForgottenKeeps(t, pins, hs, x, n);
      nodes := nodes[x := nodes[x].(nlookup := nodes[x].nlookup - n)];
      if nodes[x].nlookup == 0 {
        ghost var line := LineageOf(t, x);
        ForgetReady(t, nodes, pins, hs, x, line);
        UnrefNode(x, line, {});
      }
    }
  }

  /** A parent the kernel knows loses one reference and stays. */
  lemma UnhashReady(t: Tree, pins: multiset<Ino>, x: Ino) returns (line: seq<Ino>)
    requires Forest(t) && ExactCounts(t, pins) && x in t && x != ROOT && t[x].link.Some?
    requires Known(t, t[x].link.value.parent)
    ensures IsLineage(t, line) && line[0] == t[x].link.value.parent && x !in line
    ensures forall y :: y in line ==> y in t && t[y].refctr > 0 && y in Unref(t, line)
    ensures x in Unref(t, line) && SetLink(Unref(t, line), x, None) == Unlink(t, x)
    ensures Forest(Unlink(t, x)) && ExactCounts(Unlink(t, x), pins)
  {
    var d := t[x].link.value.parent;
    ParentHasLineage(t, x);
    UnlinkKnownParent(t, pins, x);
    line := LineageOf(t, d);
    LineageMembers(t, line);
    assert t[d].refctr == References(t, pins, d);
    assert x in Children(t, d);
    assert SetLink(Unref(t, line), x, None) == Unlink(t, x);
  }

  /** The tree after the two unlinks of a rename is the one the rename adds the new name to. */
  lemma RenameIsTwoUnlinks(t: Tree, t2: Tree, pins: multiset<Ino>, x: Ino, displaced: Option<Ino>, l: Link,
          tail: seq<Ino>)
    requires Forest(t) && ExactCounts(t, pins) && RenameReady(t, x, displaced, l, tail)
    requires displaced.Some? ==> displaced.value in t && Forest(Unlink(t, displaced.value))
    requires x in (if displaced.Some? then Unlink(t, displaced.value) else t)
    requires t2 == Unlink(if displaced.Some? then Unlink(t, displaced.value) else t, x)
    ensures Forest(t2) && ExactCounts(t2, pins) && x in t2 && t2[x].link.None? && l.parent in t2
    ensures Above(t2, x, Some(l), tail) && Lookup(t2, l).None?
    ensures Rename(t, x, displaced, l) == AddLink(t2, x, l)
  {
    var u := RenameUnlinks(t, pins, x, displaced, l, tail);
    LineageMembers(t2, tail);
  }

  /** A new node is named before its first lookup is counted; the order does not show. */
  lemma NewNodeCounted(t: Tree, newId: Ino, l: Link)
    requires newId !in t && l.parent in t
    ensures IncLookup(AddLink(t[newId := Node(None, 0, 0, 0)], newId, l), newId)
            == AddLink(t[newId := Node(None, 1, 1, 0)], newId, l)
  {
  }

  /** What the cascade started by a forget relies on. */
  lemma ForgetReady(t: Tree, t1: Tree, pins: multiset<Ino>, hs: Holds, x: Ino, line: seq<Ino>)
    requires Forest(t) && ExactCounts(t, pins) && LocksMatch(t, hs)
    requires x in t && x != ROOT && t[x].nlookup > 0 && t[x].treelock == 0
    requires t1 == t[x := t[x].(nlookup := 0)] && HasLineage(t, x) && line == LineageOf(t, x)
    ensures IsLineage(t1, line)
    ensures forall y :: y in line ==> y in t1 && t1[y].refctr > 0
    ensures forall y :: y in line && y !in Unref(t1, line) ==> t1[y].treelock == 0
  {
    LineageMembers(t, line);
    LineageFrame(t, t1, line);
    ForgottenKeeps(t, pins, hs, x, t[x].nlookup);
  }

  /** The last reference of `line[0]` is going, so it is not in the tree afterwards. */
  lemma DeletedWith(t: Tree, line: seq<Ino>)
    requires IsLineage(t, line) && t[line[0]].refctr <= 1
    ensures line[0] !in Unref(t, line)
    ensures Unref(t, line) == Unref(t, line[1..]) - {line[0]}
    ensures t[line[0]].link.None? ==> Unref(t, line) == t - {line[0]}
  {
    LineageDistinctHead(t, line);
    UnrefIgnores(t, line[0], t[line[0]], line[1..]);
  }

  /** What happens at the node itself. */
  lemma UnrefHead(t: Tree, line: seq<Ino>)
    requires IsLineage(t, line)
    ensures line[0] in line && line[0] in Members(line) && line[0] !in line[1..]
    ensures t[line[0]].link.Some? ==> |line| > 1 && line[1] == t[line[0]].link.value.parent
    ensures t[line[0]].refctr > 1 ==> Unref(t, line) == t[line[0] := t[line[0]].(refctr := t[line[0]].refctr - 1)]
  {
    LineageDistinctHead(t, line);
  }

  lemma TabledCount(names: map<Link, Ino>, t: Tree, x: Ino, n: Node, dying: set<Ino>)
    requires Tabled(names, t, dying) && x in t && n.link == t[x].link
    ensures Tabled(names, t[x := n], dying)
  {
  }

  lemma TabledCut(names: map<Link, Ino>, t: Tree, x: Ino, l: Link, dying: set<Ino>)
    requires Tabled(names, t, dying) && x in t && x !in dying && t[x].link == Some(l)
    ensures Tabled(names - {l}, t, dying + {x})
  {
  }

  /** The link of a node that is being deleted is no matter for the table. */
  lemma TabledDying(names: map<Link, Ino>, t: Tree, t': Tree, x: Ino, dying: set<Ino>)
    requires x in t && x in t' && t[x := t'[x]] == t' && t'[x].link.None? && Tabled(names, t, dying + {x}) && x !in dying
    ensures Tabled(names, t', dying)
  {
  }

  lemma TabledGone(names: map<Link, Ino>, t: Tree, x: Ino, dying: set<Ino>)
    requires Tabled(names, t, dying) && x in t && t[x].link.None?
    ensures Tabled(names, t - {x}, dying)
  {
  }

  /** What the recursive call on the parent starts from, with the dying node still in the table. */
  lemma DeleteReady(t: Tree, n: Node, line: seq<Ino>, dying: set<Ino>)
    requires IsLineage(t, line) && t[line[0]].refctr <= 1 && t[line[0]].link.Some?
    requires n.link == t[line[0]].link && dying !! Members(line)
    requires forall y :: y in line ==> y in t && t[y].refctr > 0
    requires forall y :: y in line && y !in Unref(t, line) ==> t[y].treelock == 0
    ensures var t1 := t[line[0] := n];
      && IsLineage(t1, line[1..]) && (dying + {line[0]}) !! Members(line[1..])
      && (forall y :: y in line[1..] ==> y in t1 && t1[y].refctr > 0)
      && (forall y :: y in line[1..] && y !in Unref(t1, line[1..]) ==> t1[y].treelock == 0)
      && Unref(t1, line[1..]) == Unref(t, line[1..])[line[0] := n]
  {
    var x := line[0];
    var t1 := t[x := n];
    LineageDistinctHead(t, line);
    DeletedWith(t, line);
    UnrefIgnores(t, x, n, line[1..]);
    LineageMembers(t, line[1..]);
    LineageFrame(t, t1, line[1..]);
    assert forall y :: y in line[1..] ==> y in line;
  }

  lemma LineageDistinctHead(t: Tree, line: seq<Ino>)
    requires IsLineage(t, line)
    ensures line[0] !in line[1..]
  {
    forall i | 0 <= i < |line| - 1 ensures line[1..][i] != line[0] { LineageNoRepeat(t, line, 0, i + 1); }
  }

  /** The path of a node as the file system sees it. */
  function FullPath(names: seq<string>): string
  {
    if names == [] then "/" else PathText(names)
  }

  /** The text after the names of the first `k` nodes of `p` have been put in front of `text`. */
  ghost function Spelled(t: Tree, p: seq<Ino>, k: nat, text: string): string
    requires k <= |p|
  {
    PathText(Names(t, p[..k])) + text
  }

  lemma SpelledNext(t: Tree, p: seq<Ino>, k: nat, text: string)
    requires IsLineage(t, p) && k < |p| && p[k] in t && t[p[k]].link.Some?
    ensures "/" + t[p[k]].link.value.name + Spelled(t, p, k, text) == Spelled(t, p, k + 1, text)
    ensures |Spelled(t, p, k + 1, text)| <= |PathText(Names(t, p))| + |text|
    ensures |Spelled(t, p, k, text)| + |t[p[k]].link.value.name| + 1 <= |PathText(Names(t, p))| + |text|
  {
    NextName(t, p, k);
  }

  /** The walk along `p` is at its `k`-th node, with everything before it locked. */
  ghost predicate Walked(t: Tree, cur: Tree, p: seq<Ino>, k: nat, needLock: bool)
    requires k < |p|
  {
    && (forall i :: 0 <= i < k ==> p[i] != ROOT)
    && cur == (if needLock then LockChain(t, p[..k]) else t)
    && (needLock ==> WalkOutcome(t, p) == WalkOutcome(t, p[k..]))
    && (needLock ==> forall x :: x in p[..k] ==> x in t && t[x].treelock >= 0)
  }

  /** Why the walk stopped at the `k`-th node. */
  ghost predicate Stopped(t: Tree, p: seq<Ino>, k: nat, needLock: bool, err: Outcome)
    requires k < |p|
  {
    && (needLock ==> err == WalkOutcome(t, p))
    && match err
       case Granted => p[k] == ROOT
       case NoEntry => p[k] != ROOT && p[k] in t && t[p[k]].link.None?
       case Again => p[k] != ROOT && needLock
  }

  lemma WalkStart(t: Tree, p: seq<Ino>, needLock: bool, text: string)
    requires IsLineage(t, p)
    ensures Walked(t, t, p, 0, needLock) && Spelled(t, p, 0, text) == text
  {
    assert p[..0] == [] && p[0..] == p;
    assert [] + text == text;
  }

  lemma WalkHere(t: Tree, cur: Tree, p: seq<Ino>, k: nat, needLock: bool)
    requires IsLineage(t, p) && k < |p| && Walked(t, cur, p, k, needLock)
    ensures p[k] in t && p[k] in cur && cur[p[k]] == t[p[k]]
    ensures p[k] != ROOT && needLock ==>
      (t[p[k]].link.None? ==> WalkOutcome(t, p) == NoEntry) &&
      (t[p[k]].link.Some? && t[p[k]].treelock < 0 ==> WalkOutcome(t, p) == Again)
    ensures p[k] == ROOT && needLock ==> WalkOutcome(t, p) == Granted
  {
    LineageMembers(t, p);
    LineageDistinct(t, p, k);
    ChainStep(t, p, k);
  }

  lemma {:induction false} WalkNext(t: Tree, cur: Tree, p: seq<Ino>, k: nat, needLock: bool)
    requires IsLineage(t, p) && k < |p| && Walked(t, cur, p, k, needLock)
    requires p[k] in t && p[k] in cur && p[k] != ROOT && t[p[k]].link.Some? && (needLock ==> t[p[k]].treelock >= 0)
    ensures k + 1 < |p| && p[k + 1] == t[p[k]].link.value.parent
    ensures Walked(t, if needLock then SetLock(cur, p[k], t[p[k]].treelock + 1) else cur, p, k + 1, needLock)
  {
    LineageMembers(t, p);
    assert p[..k + 1] == p[..k] + [p[k]];
    if needLock {
      LockNext(t, p, k);
      OutcomeNext(t, p, k);
    }
  }

  lemma {:induction false} LockNext(t: Tree, p: seq<Ino>, k: nat)
    requires IsLineage(t, p) && k < |p| && p[k] in t && forall x :: x in p[..k] ==> x in t
    ensures LockChain(t, p[..k + 1]) == SetLock(LockChain(t, p[..k]), p[k], t[p[k]].treelock + 1)
  {
    LineageDistinct(t, p, k);
    ChainStep(t, p, k);
  }

  lemma {:induction false} OutcomeNext(t: Tree, p: seq<Ino>, k: nat)
    requires k < |p| && p[k] in t && p[k] != ROOT && t[p[k]].link.Some? && t[p[k]].treelock >= 0 && k + 1 < |p|
    ensures WalkOutcome(t, p[k..]) == WalkOutcome(t, p[k + 1..])
  {
    assert p[k..][1..] == p[k + 1..];
  }

  /** What unlock_path needs in order to back out of a stopped walk. */
  lemma BackOut(t: Tree, cur: Tree, p: seq<Ino>, k: nat)
    requires IsLineage(t, p) && k < |p| && Walked(t, cur, p, k, true)
    ensures IsLineage(cur, p) && ReadLocked(cur, p[..k])
  {
    LineageMembers(t, p);
    LineageFrame(t, cur, p);
  }

  ghost predicate PathEndsAtRoot(t: Tree, p: seq<Ino>)
  {
    |p| > 0 && p[|p| - 1] == ROOT
  }

  /** The walk can only reach the root at the end of the lineage. */
  lemma StoppedAt(t: Tree, p: seq<Ino>, k: nat)
    requires IsLineage(t, p) && k < |p| && p[k] in t && ROOT in t && t[ROOT].link.None?
    ensures p[k] == ROOT ==> k == |p| - 1
    ensures t[p[k]].link.None? ==> k == |p| - 1
  {
    LineageSuffix(t, p, k);
  }

  /** The name of the next node up fits in front of the text so far. */
  lemma NextName(t: Tree, p: seq<Ino>, k: nat)
    requires IsLineage(t, p) && k < |p| && p[k] in t && t[p[k]].link.Some?
    ensures PathText(Names(t, p[..k + 1])) == "/" + t[p[k]].link.value.name + PathText(Names(t, p[..k]))
    ensures |PathText(Names(t, p[..k + 1]))| <= |PathText(Names(t, p))|
  {
    LineageMembers(t, p);
    var n := t[p[k]].link.value.name;
    assert p[..k + 1] == p[..k] + [p[k]];
    NamesAppend(t, p[..k], [p[k]]);
    assert Names(t, [p[k]]) == [n];
    PathTextAppend([n], Names(t, p[..k]));
    assert PathText([n]) == "/" + n;
    assert p == p[..k + 1] + p[k + 1..];
    NamesAppend(t, p[..k + 1], p[k + 1..]);
    PathTextAppend(Names(t, p[k + 1..]), Names(t, p[..k + 1]));
  }

  /** The tree and whether the write node is busy, after trying to write-lock it. */
  function WriteTried(t: Tree, w: Option<Ino>): (Tree, bool)
    requires w.Some? ==> w.value in t
  {
    if w.None? then (t, false)
    else
      var word := t[w.value].treelock;
      if word == 0 then (SetLock(t, w.value, TREELOCK_WRITE), false)
      else if word > 0 then (SetLock(t, w.value, word + TREELOCK_WAIT_OFFSET), true)
      else (t, true)
  }

  /** The write lock and the walk together are TryLock. */
  lemma TryLockAssembled(t: Tree, t1: Tree, req: PathReq, p: seq<Ino>)
    requires Forest(t) && HasLineage(t, req.start) && p == LineageOf(t, req.start)
    requires (t1, false) == WriteTried(t, WriteNode(t, req))
    ensures var err := WalkOutcome(t1, p);
      var w := WriteNode(t, req);
      (if err == Granted then LockChain(t1, p[..|p| - 1])
       else if w.Some? then SetLock(t1, w.value, 0) else t1, err) == TryLock(t, req)
  {
    WriteLocked(t, t1, req, p);
  }

  /** Write-locking the child leaves the walk above it as it was. */
  lemma WriteLocked(t: Tree, t1: Tree, req: PathReq, p: seq<Ino>)
    requires Forest(t) && HasLineage(t, req.start) && p == LineageOf(t, req.start)
    requires (t1, false) == WriteTried(t, WriteNode(t, req))
    ensures t.Keys == t1.Keys && forall x :: x in t ==> t1[x].link == t[x].link
    ensures IsLineage(t1, p) && WalkOutcome(t1, p) == WalkOutcome(t, p) && Names(t1, p) == Names(t, p)
    ensures WriteNode(t, req).Some? ==> WriteNode(t, req).value !in p
    ensures Names(t1, p[..|p| - 1]) == Names(t, p[..|p| - 1])
    ensures var w := WriteNode(t, req); w.Some? ==> t1[w.value].treelock == TREELOCK_WRITE && SetLock(t1, w.value, 0) == t
  {
    LineageMembers(t, p);
    LineageFrame(t, t1, p);
    if WriteNode(t, req).Some? { WriteNodeOffChain(t, req); }
    WalkFrame(t, t1, p);
    NamesFrame(t, t1, p);
    NamesFrame(t, t1, p[..|p| - 1]);
  }

  lemma {:induction false} WalkFrame(t: Tree, t1: Tree, p: seq<Ino>)
    requires forall x :: x in p ==> x in t && x in t1 && t1[x] == t[x]
    ensures WalkOutcome(t1, p) == WalkOutcome(t, p)
  {
    if p != [] {
      assert p[0] in p;
      forall x | x in p[1..] ensures x in p { }
      WalkFrame(t, t1, p[1..]);
    }
  }

  /** At the root, the text is the whole path. */
  lemma SpelledPath(t: Tree, p: seq<Ino>, tail: seq<string>)
    requires IsLineage(t, p)
    ensures HasLineage(t, p[0]) && (PathOf(t, p[0]).Some? <==> PathEndsAtRoot(t, p))
    ensures PathEndsAtRoot(t, p) ==>
      Spelled(t, p, |p| - 1, PathText(tail)) == PathText(PathOf(t, p[0]).value + tail)
  {
    var k := |p| - 1;
    LineageMembers(t, p);
    assert p == p[..k] + [p[k]];
    NamesAppend(t, p[..k], [p[k]]);
    assert Names(t, [p[k]]) == [];
    assert [] + Names(t, p[..k]) == Names(t, p[..k]);
    PathIs(t, p);
    PathTextAppend(Names(t, p[..k]), tail);
  }

  /** Undoing the write lock after undoing the read locks leaves nothing locked. */
  lemma UndoWrite(t: Tree, w: Option<Ino>, p: seq<Ino>, k: nat)
    requires k < |p| && (w.Some? ==> w.value in t && w.value !in p)
    requires forall x :: x in p[..k] ==> x in t && t[x].treelock >= 0
    ensures var t2 := LockChain(t, p[..k]);
      UnlockChain(if w.Some? then SetLock(t2, w.value, 0) else t2, p[..k])
      == if w.Some? then SetLock(t, w.value, 0) else t
  {
  }
}
