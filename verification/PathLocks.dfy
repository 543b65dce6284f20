/**
  The tree read/write lock.  A request read-locks every node from its start node up to
  (not including) the root, and may write-lock one child of the start node.  All of a node's
  lock state is one integer, `treelock`: the number of readers; the same shifted by INT_MIN
  when a writer waits; or -1 when it is write-locked.
 */
module PathLocks {
  import opened Wrappers
  import opened PathTree
  import opened TreeOps

  const TREELOCK_WRITE: int := -1
  const TREELOCK_WAIT_OFFSET: int := -0x8000_0000
  const INT_MAX: int := 0x7fff_ffff

  /** One path argument of a request: the start node, the last name, and whether its node is write-locked. */
  datatype PathReq = PathReq(start: Ino, name: string, hasName: bool, write: bool)

  /** A granted path: `chain` is what was read-locked, `wnode` what was write-locked. */
  datatype Hold = Hold(req: PathReq, wnode: Option<Ino>, chain: seq<Ino>)

  /** Every path ever granted, in order; a released one leaves None behind. */
  type Holds = seq<Option<Hold>>

  datatype Outcome = Granted | NoEntry | Again

  // ----------------------------------------------------------------- counting

  ghost function Reads(h: Option<Hold>, x: Ino): nat
  {
    if h.Some? && x in h.value.chain then 1 else 0
  }

  ghost function Writes(h: Option<Hold>, x: Ino): nat
  {
    if h.Some? && h.value.wnode == Some(x) then 1 else 0
  }

  ghost function Readers(hs: Holds, x: Ino): (r: nat)
    ensures r <= Live(hs)
  {
    if hs == [] then 0 else Readers(hs[..|hs| - 1], x) + Reads(hs[|hs| - 1], x)
  }

  ghost function Writers(hs: Holds, x: Ino): nat
  {
    if hs == [] then 0 else Writers(hs[..|hs| - 1], x) + Writes(hs[|hs| - 1], x)
  }

  ghost function Live(hs: Holds): nat
  {
    if hs == [] then 0 else Live(hs[..|hs| - 1]) + if hs[|hs| - 1].Some? then 1 else 0
  }

  lemma CountAppend(hs: Holds, h: Option<Hold>, x: Ino)
    ensures Readers(hs + [h], x) == Readers(hs, x) + Reads(h, x)
    ensures Writers(hs + [h], x) == Writers(hs, x) + Writes(h, x)
  {
    assert (hs + [h])[..|hs|] == hs;
  }

  lemma {:induction false} CountUpdate(hs: Holds, i: nat, h: Option<Hold>, x: Ino)
    requires i < |hs|
    ensures Readers(hs[i := h], x) + Reads(hs[i], x) == Readers(hs, x) + Reads(h, x)
    ensures Writers(hs[i := h], x) + Writes(hs[i], x) == Writers(hs, x) + Writes(h, x)
  {
    var n := |hs| - 1;
    if i < n {
      CountUpdate(hs[..n], i, h, x);
      assert hs[i := h][..n] == hs[..n][i := h];
    } else {
      assert hs[i := h][..n] == hs[..n];
    }
  }

  lemma {:induction false} CountPositive(hs: Holds, i: nat, x: Ino)
    requires i < |hs|
    ensures Reads(hs[i], x) <= Readers(hs, x)
    ensures Writes(hs[i], x) <= Writers(hs, x)
  {
    if i < |hs| - 1 { CountPositive(hs[..|hs| - 1], i, x); }
  }

  /** Two different holds on the same write node would be two writers. */
  lemma {:induction false} TwoWriters(hs: Holds, i: nat, j: nat, x: Ino)
    requires i < j < |hs| && Writes(hs[i], x) == 1 && Writes(hs[j], x) == 1
    ensures Writers(hs, x) >= 2
  {
    if j < |hs| - 1 { TwoWriters(hs[..|hs| - 1], i, j, x); }
    else { CountPositive(hs[..|hs| - 1], i, x); }
  }

  lemma {:induction false} NoneCounted(hs: Holds, x: Ino)
    requires forall i :: 0 <= i < |hs| ==> Reads(hs[i], x) == 0 && Writes(hs[i], x) == 0
    ensures Readers(hs, x) == 0 && Writers(hs, x) == 0
  {
    if hs != [] { NoneCounted(hs[..|hs| - 1], x); }
  }

  // ---------------------------------------------------------------- invariant

  /** The lock word of a node with `r` readers and `w` writers. */
  ghost predicate LockWord(word: int, r: nat, w: nat)
  {
    || (w == 1 && r == 0 && word == TREELOCK_WRITE)
    || (w == 0 && word == r)
    || (w == 0 && r > 0 && word == r + TREELOCK_WAIT_OFFSET)
  }

  /** The kernel holds a lookup on the node. */
  predicate Known(t: Tree, x: Ino)
  {
    x in t && t[x].nlookup > 0
  }

  /** What a hold was granted is still there: its chain is the whole way from its start to the root. */
  ghost predicate HoldStands(t: Tree, h: Hold)
  {
    && IsLineage(t, h.chain + [ROOT])
    && (h.chain + [ROOT])[0] == h.req.start
    && Known(t, h.req.start)
    && (h.wnode.Some? ==> h.wnode.value != ROOT && Known(t, h.wnode.value))
  }

  ghost predicate LocksMatch(t: Tree, hs: Holds)
  {
    && Live(hs) < INT_MAX
    && (forall x {:trigger Readers(hs, x)} :: x in t ==>
          LockWord(t[x].treelock, Readers(hs, x), Writers(hs, x)))
    && (forall i :: 0 <= i < |hs| && hs[i].Some? ==> HoldStands(t, hs[i].value))
  }

  /**
    What the lock word says about the holders: a writer excludes every reader and every other
    writer, and a node nobody reads carries no waiter mark.
   */
  lemma LockWordMeans(t: Tree, hs: Holds, x: Ino)
    requires LocksMatch(t, hs) && x in t
    ensures t[x].treelock == TREELOCK_WRITE <==> Writers(hs, x) == 1
    ensures Writers(hs, x) <= 1 && (Writers(hs, x) == 1 ==> Readers(hs, x) == 0)
    ensures t[x].treelock == 0 <==> Readers(hs, x) == 0 && Writers(hs, x) == 0
    ensures t[x].treelock > 0 ==> t[x].treelock == Readers(hs, x)
    ensures t[x].treelock < TREELOCK_WRITE ==> t[x].treelock - TREELOCK_WAIT_OFFSET == Readers(hs, x) > 0
  {
    assert LockWord(t[x].treelock, Readers(hs, x), Writers(hs, x));
  }

  lemma ChainAvoidsRoot(t: Tree, chain: seq<Ino>)
    requires IsLineage(t, chain + [ROOT])
    ensures ROOT !in chain
    ensures forall x :: x in chain ==> x in t && t[x].link.Some?
    ensures forall i, j :: 0 <= i < j < |chain| ==> chain[i] != chain[j]
  {
    var p := chain + [ROOT];
    LineageMembers(t, p);
    forall i | 0 <= i < |chain| ensures chain[i] != ROOT && chain[i] in t && t[chain[i]].link.Some? {
      LineageNoRepeat(t, p, i, |chain|);
      assert p[i] == chain[i];
    }
    forall i, j | 0 <= i < j < |chain| ensures chain[i] != chain[j] {
      LineageNoRepeat(t, p, i, j);
    }
  }

  // -------------------------------------------------------- lock and unlock

  function SetLock(t: Tree, x: Ino, word: int): (t': Tree)
    requires x in t
  {
    t[x := t[x].(treelock := word)]
  }

  /** What unlock_path does to the word of one chain node. */
  function Decremented(word: int): int
  {
    if word - 1 == TREELOCK_WAIT_OFFSET then 0 else word - 1
  }

  /** Read-locks every node of `chain`. */
  function LockChain(t: Tree, chain: seq<Ino>): Tree
  {
    map x | x in t :: if x in chain then t[x].(treelock := t[x].treelock + 1) else t[x]
  }

  /** Undoes LockChain. */
  function UnlockChain(t: Tree, chain: seq<Ino>): Tree
  {
    map x | x in t :: if x in chain then t[x].(treelock := Decremented(t[x].treelock)) else t[x]
  }

  /** Locking or unlocking a chain is doing it one node at a time. */
  lemma ChainStep(t: Tree, p: seq<Ino>, i: nat)
    requires i < |p| && p[i] in t && p[i] !in p[..i]
    ensures LockChain(t, p[..i])[p[i] := t[p[i]].(treelock := t[p[i]].treelock + 1)] == LockChain(t, p[..i + 1])
    ensures UnlockChain(t, p[..i])[p[i] := t[p[i]].(treelock := Decremented(t[p[i]].treelock))]
            == UnlockChain(t, p[..i + 1])
    ensures LockChain(t, p[..i])[p[i]] == t[p[i]] && UnlockChain(t, p[..i])[p[i]] == t[p[i]]
  {
    assert p[..i + 1] == p[..i] + [p[i]];
  }

  /** Backing out of a half-finished walk leaves no trace. */
  lemma UnlockUndoesLock(t: Tree, chain: seq<Ino>)
    requires forall x :: x in chain ==> x in t && t[x].treelock >= 0
    ensures UnlockChain(LockChain(t, chain), chain) == t
    ensures forall x :: x in chain ==> LockChain(t, chain)[x].treelock > 0
  {
  }

  lemma LineageDistinct(t: Tree, p: seq<Ino>, i: nat)
    requires IsLineage(t, p) && i < |p|
    ensures p[i] !in p[..i]
  {
    forall j | 0 <= j < i ensures p[j] != p[i] { LineageNoRepeat(t, p, j, i); }
  }

  /** The node a request would write-lock. */
  ghost function WriteNode(t: Tree, req: PathReq): (w: Option<Ino>)
    ensures w.Some? ==> w.value in t && t[w.value].link == Some(Link(req.start, req.name))
  {
    if req.write then Lookup(t, Link(req.start, req.name)) else None
  }

  /** What the upward walk along the lineage `p` meets first. */
  function WalkOutcome(t: Tree, p: seq<Ino>): Outcome
  {
    if p == [] || p[0] == ROOT then Granted
    else if p[0] !in t || t[p[0]].link.None? then NoEntry
    else if t[p[0]].treelock < 0 then Again
    else WalkOutcome(t, p[1..])
  }

  /** The tree and the verdict after try_get_path. */
  ghost function TryLock(t: Tree, req: PathReq): (r: (Tree, Outcome))
    requires HasLineage(t, req.start)
  {
    var w := WriteNode(t, req);
    if w.Some? && t[w.value].treelock != 0 then
      (if t[w.value].treelock > 0 then SetLock(t, w.value, t[w.value].treelock + TREELOCK_WAIT_OFFSET) else t, Again)
    else
      var p := LineageOf(t, req.start);
      var o := WalkOutcome(t, p);
      if o != Granted then (t, o)
      else
        var t1 := if w.Some? then SetLock(t, w.value, TREELOCK_WRITE) else t;
        (LockChain(t1, p[..|p| - 1]), Granted)
  }

  /** The hold that a granted request gets. */
  ghost function NewHold(t: Tree, req: PathReq): Hold
    requires HasLineage(t, req.start)
  {
    var p := LineageOf(t, req.start);
    Hold(req, WriteNode(t, req), p[..|p| - 1])
  }

  /** The tree after unlock_path releases `h`. */
  function Unlock(t: Tree, h: Hold): Tree
    requires h.wnode.Some? ==> h.wnode.value in t
  {
    UnlockChain(if h.wnode.Some? then SetLock(t, h.wnode.value, 0) else t, h.chain)
  }

  /** A walk is granted exactly when it gets to the root past nodes no writer holds or waits for. */
  lemma {:induction false} WalkMeans(t: Tree, p: seq<Ino>)
    requires IsLineage(t, p) && ROOT in t && t[ROOT].link.None?
    ensures WalkOutcome(t, p) == Granted <==>
              p[|p| - 1] == ROOT && forall x :: x in p[..|p| - 1] ==> x in t && t[x].treelock >= 0
  {
    if p[0] == ROOT {
      assert p == [ROOT];
    } else if t[p[0]].link.Some? {
      WalkMeans(t, p[1..]);
      var n := |p| - 1;
      assert p[..n] == [p[0]] + p[1..][..n - 1];
      assert p[0] in p[..n];
      LineageMembers(t, p);
      forall x | x in p[1..][..n - 1] ensures x in p[..n] && x in t { }
      forall x | x in p[..n] ensures x in t && (x == p[0] || x in p[1..][..n - 1]) { }
    }
  }

  /** The write node of a request is a child of its start node, so it is not on the chain. */
  lemma WriteNodeOffChain(t: Tree, req: PathReq)
    requires Forest(t) && HasLineage(t, req.start) && WriteNode(t, req).Some?
    ensures WriteNode(t, req).value !in LineageOf(t, req.start)
    ensures WriteNode(t, req).value != ROOT
  {
    var w := WriteNode(t, req).value;
    ParentHasLineage(t, w);
  }

  /** Locks on other nodes and counts do not move anything. */
  ghost predicate SameButLocks(t: Tree, t': Tree)
  {
    t'.Keys == t.Keys && forall x :: x in t ==> t'[x] == t[x].(treelock := t'[x].treelock)
  }

  lemma HoldStandsFrame(t: Tree, t': Tree, h: Hold)
    requires HoldStands(t, h) && SameButLocks(t, t')
    ensures HoldStands(t', h)
  {
    LineageMembers(t, h.chain + [ROOT]);
    LineageFrame(t, t', h.chain + [ROOT]);
  }

  lemma TryLockFrame(t: Tree, req: PathReq)
    requires HasLineage(t, req.start)
    ensures SameButLocks(t, TryLock(t, req).0)
  {
  }

  /** A refused request changes no lock word, except that a reader-held write node gets the waiter mark. */
  lemma RefusedChangesOnlyWaiterMark(t: Tree, hs: Holds, req: PathReq)
    requires Forest(t) && LocksMatch(t, hs) && HasLineage(t, req.start) && TryLock(t, req).1 != Granted
    ensures LocksMatch(TryLock(t, req).0, hs)
    ensures forall x :: x in t && TryLock(t, req).0[x] != t[x] ==>
              && Some(x) == WriteNode(t, req) && Readers(hs, x) > 0
              && TryLock(t, req).0[x].treelock == t[x].treelock + TREELOCK_WAIT_OFFSET
  {
    var t' := TryLock(t, req).0;
    forall x | x in t' ensures LockWord(t'[x].treelock, Readers(hs, x), Writers(hs, x)) {
      assert LockWord(t[x].treelock, Readers(hs, x), Writers(hs, x));
    }
    forall i | 0 <= i < |hs| && hs[i].Some? ensures HoldStands(t', hs[i].value) {
      HoldStandsFrame(t, t', hs[i].value);
    }
  }

  /** Word by word, what a grant does. */
  lemma GrantedWords(t: Tree, req: PathReq)
    requires Forest(t) && HasLineage(t, req.start) && TryLock(t, req).1 == Granted
    ensures var h := NewHold(t, req);
      && LineageOf(t, req.start) == h.chain + [ROOT]
      && (h.wnode.Some? ==> h.wnode.value !in h.chain && h.wnode.value != ROOT && t[h.wnode.value].treelock == 0)
      && forall x :: x in t ==>
           && (x in h.chain ==> t[x].treelock >= 0)
           && TryLock(t, req).0[x].treelock ==
              if x in h.chain then t[x].treelock + 1
              else if Some(x) == h.wnode then TREELOCK_WRITE else t[x].treelock
  {
    var p := LineageOf(t, req.start);
    WalkMeans(t, p);
    assert p == p[..|p| - 1] + [ROOT];
    if WriteNode(t, req).Some? { WriteNodeOffChain(t, req); }
  }

  /** A granted request becomes one more hold, and the lock words count it. */
  lemma GrantAddsHold(t: Tree, hs: Holds, req: PathReq)
    requires Forest(t) && LocksMatch(t, hs) && HasLineage(t, req.start) && TryLock(t, req).1 == Granted
    requires Live(hs) + 1 < INT_MAX
    requires Known(t, req.start) && (WriteNode(t, req).Some? ==> Known(t, WriteNode(t, req).value))
    ensures LocksMatch(TryLock(t, req).0, hs + [Some(NewHold(t, req))])
  {
    var t' := TryLock(t, req).0;
    var h := NewHold(t, req);
    var hs' := hs + [Some(h)];
    GrantedWords(t, req);
    TryLockFrame(t, req);
    assert HoldStands(t, h);
    forall x | x in t ensures LockWord(t'[x].treelock, Readers(hs', x), Writers(hs', x)) {
      CountAppend(hs, Some(h), x);
      assert LockWord(t[x].treelock, Readers(hs, x), Writers(hs, x));
    }
    assert hs'[..|hs|] == hs;
    forall i | 0 <= i < |hs'| && hs'[i].Some? ensures HoldStands(t', hs'[i].value) {
      HoldStandsFrame(t, t', hs'[i].value);
    }
  }

  /** Releasing a hold takes its read locks and its write lock away, and nothing else. */
  lemma ReleaseRemovesHold(t: Tree, hs: Holds, i: nat)
    requires LocksMatch(t, hs) && i < |hs| && hs[i].Some?
    ensures hs[i].value.wnode.Some? ==> hs[i].value.wnode.value in t
    ensures LocksMatch(Unlock(t, hs[i].value), hs[i := None])
    ensures forall x :: x in hs[i].value.chain ==>
              x in t && t[x].treelock !in {0, TREELOCK_WRITE, TREELOCK_WAIT_OFFSET}
    ensures hs[i].value.wnode.Some? ==> t[hs[i].value.wnode.value].treelock == TREELOCK_WRITE
  {
    var h := hs[i].value;
    var t' := Unlock(t, h);
    var hs' := hs[i := None];
    assert HoldStands(t, h);
    ChainAvoidsRoot(t, h.chain);
    forall x | x in t
      ensures LockWord(t'[x].treelock, Readers(hs', x), Writers(hs', x))
      ensures x in h.chain ==> t[x].treelock !in {0, TREELOCK_WRITE, TREELOCK_WAIT_OFFSET}
      ensures h.wnode == Some(x) ==> t[x].treelock == TREELOCK_WRITE
    {
      CountUpdate(hs, i, None, x);
      CountPositive(hs, i, x);
      assert LockWord(t[x].treelock, Readers(hs, x), Writers(hs, x));
    }
    LiveUpdate(hs, i);
    forall j | 0 <= j < |hs'| && hs'[j].Some? ensures HoldStands(t', hs'[j].value) {
      HoldStandsFrame(t, t', hs[j].value);
    }
  }

  lemma {:induction false} LiveUpdate(hs: Holds, i: nat)
    requires i < |hs| && hs[i].Some?
    ensures Live(hs[i := None]) == Live(hs) - 1
  {
    var n := |hs| - 1;
    if i < n {
      LiveUpdate(hs[..n], i);
      assert hs[i := None][..n] == hs[..n][i := None];
    } else {
      assert hs[i := None][..n] == hs[..n];
    }
  }

  // ----------------------------------------- the locks keep the tree in place

  /**
    Restructuring that touches only nodes nobody reads, removes only nodes nobody holds and
    leaves held nodes known to the kernel keeps every granted chain exactly as it was granted.
   */
  lemma ChainsStayPut(t: Tree, t': Tree, hs: Holds)
    requires LocksMatch(t, hs)
    requires forall x :: x in t && x in t' ==> t'[x].treelock == t[x].treelock
    requires forall x :: x in t' && x !in t ==> t'[x].treelock == 0
    requires forall x {:trigger Readers(hs, x)} :: x in t && (Readers(hs, x) > 0 || x == ROOT) ==>
               x in t' && t'[x].link == t[x].link
    requires forall i :: 0 <= i < |hs| && hs[i].Some? ==>
               Known(t', hs[i].value.req.start) && (hs[i].value.wnode.Some? ==> Known(t', hs[i].value.wnode.value))
    ensures LocksMatch(t', hs)
  {
    forall i | 0 <= i < |hs| && hs[i].Some? ensures HoldStands(t', hs[i].value) {
      var h := hs[i].value;
      var p := h.chain + [ROOT];
      assert HoldStands(t, h);
      LineageMembers(t, p);
      forall x | x in p ensures x in t && x in t' && t'[x].link == t[x].link {
        CountPositive(hs, i, x);
      }
      LineageFrame(t, t', p);
    }
    forall x | x in t' ensures LockWord(t'[x].treelock, Readers(hs, x), Writers(hs, x)) {
      if x in t {
        assert LockWord(t[x].treelock, Readers(hs, x), Writers(hs, x));
      } else {
        UnheldOutside(t, hs, x);
      }
    }
  }

  lemma UnheldOutside(t: Tree, hs: Holds, x: Ino)
    requires LocksMatch(t, hs) && x !in t
    ensures Readers(hs, x) == 0 && Writers(hs, x) == 0
  {
    forall i | 0 <= i < |hs| ensures Reads(hs[i], x) == 0 && Writes(hs[i], x) == 0 {
      if hs[i].Some? { ChainAvoidsRoot(t, hs[i].value.chain); }
    }
    NoneCounted(hs, x);
  }

  /** A node without named children that the kernel has forgotten is locked by nobody. */
  lemma ForgottenLeafUnlocked(t: Tree, hs: Holds, x: Ino)
    requires LocksMatch(t, hs) && x in t && Children(t, x) == {} && t[x].nlookup == 0
    ensures Readers(hs, x) == 0 && Writers(hs, x) == 0 && t[x].treelock == 0
  {
    forall i | 0 <= i < |hs| ensures Reads(hs[i], x) == 0 && Writes(hs[i], x) == 0 {
      if hs[i].Some? {
        var h := hs[i].value;
        var p := h.chain + [ROOT];
        LineageMembers(t, p);
        forall j | 0 <= j < |h.chain| ensures h.chain[j] != x {
          assert p[j] == h.chain[j];
          if j > 0 { assert p[j - 1] in Children(t, p[j]); }
        }
      }
    }
    NoneCounted(hs, x);
    assert LockWord(t[x].treelock, Readers(hs, x), Writers(hs, x));
  }

  /** No node with a lock on it is ever freed by the delete cascade. */
  lemma {:induction false} CascadeSparesLocked(t: Tree, pins: multiset<Ino>, hs: Holds, line: seq<Ino>)
    requires Forest(t) && IsLineage(t, line) && CountedExcept(t, pins, line[0], 1)
    requires LocksMatch(t, hs)
    ensures LocksMatch(Unref(t, line), hs)
    ensures forall x :: x in t && t[x].treelock != 0 ==> x in Unref(t, line)
    decreases |line|
  {
    var x := line[0];
    if t[x].refctr > 1 {
      ChainsStayPut(t, Unref(t, line), hs);
    } else {
      var t1 := t - {x};
      assert Unref(t, line) == Unref(t1, line[1..]);
      assert t[x].link.Some? ==> line[1] != x by {
        if t[x].link.Some? { LineageNoRepeat(t, line, 0, 1); }
      }
      RemoveLeafCounts(t, pins, x);
      ForgottenLeafUnlocked(t, hs, x);
      RemoveLeaf(t, x);
      RemoveUnlocked(t, hs, x);
      if t[x].link.Some? {
        LineageWithoutLeaf(t, x, line[1..]);
        CascadeSparesLocked(t1, pins, hs, line[1..]);
      }
    }
  }

  lemma RemoveUnlocked(t: Tree, hs: Holds, x: Ino)
    requires LocksMatch(t, hs) && x in t && x != ROOT && t[x].nlookup == 0
    requires Readers(hs, x) == 0 && Writers(hs, x) == 0
    ensures LocksMatch(t - {x}, hs)
  {
    forall i | 0 <= i < |hs| && hs[i].Some?
      ensures Known(t - {x}, hs[i].value.req.start)
      ensures hs[i].value.wnode.Some? ==> Known(t - {x}, hs[i].value.wnode.value)
    {
      assert HoldStands(t, hs[i].value);
    }
    ChainsStayPut(t, t - {x}, hs);
  }
}
