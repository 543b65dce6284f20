/**
  POSIX advisory record locks of one file, kept as one list of byte ranges shared by all owners.
  The intended meaning is pointwise: per owner and byte, no lock, a read lock or a write lock
  (fcntl() page of POSIX.1-2017, System Interfaces).
 */
module RecordLocks {
  import opened Wrappers

  const OFFSET_MAX: int := 0x7fff_ffff_ffff_ffff

  datatype LockType = Unlock | ReadLock | WriteLock

  /** struct lock: the bytes `start..end`, both included. */
  datatype Lock = Lock(typ: LockType, start: int, end: int, pid: int, owner: nat)

  type LockList = seq<Lock>

  predicate ValidRange(l: Lock)
  {
    0 <= l.start <= l.end <= OFFSET_MAX
  }

  predicate Covers(l: Lock, owner: nat, x: int)
  {
    l.owner == owner && l.start <= x <= l.end
  }

  // ------------------------------------------------------------------ meaning

  /** What `owner` holds on byte `x`: the type of its first record covering the byte. */
  function TypeAt(ls: LockList, owner: nat, x: int): LockType
  {
    if ls == [] then Unlock
    else if Covers(ls[0], owner, x) then ls[0].typ
    else TypeAt(ls[1..], owner, x)
  }

  /** Two records of one owner in list order do not overlap, are in order, and do not touch when of equal type. */
  predicate Apart(a: Lock, b: Lock)
  {
    a.owner == b.owner ==> a.end < b.start && (a.typ == b.typ ==> a.end + 1 < b.start)
  }

  /** Each owner's records are sorted, disjoint and maximal. */
  ghost predicate Canonical(ls: LockList)
  {
    && (forall i :: 0 <= i < |ls| ==> ValidRange(ls[i]) && ls[i].typ != Unlock)
    && (forall i, j :: 0 <= i < j < |ls| ==> Apart(ls[i], ls[j]))
  }

  lemma {:induction false} TypeAtIndex(ls: LockList, owner: nat, x: int, i: nat)
    requires Canonical(ls) && i < |ls| && Covers(ls[i], owner, x)
    ensures TypeAt(ls, owner, x) == ls[i].typ
  {
    if i > 0 {
      assert Apart(ls[0], ls[i]);
      assert Canonical(ls[1..]) by { CanonicalTail(ls); }
      TypeAtIndex(ls[1..], owner, x, i - 1);
    }
  }

  lemma CanonicalTail(ls: LockList)
    requires Canonical(ls) && ls != []
    ensures Canonical(ls[1..])
  {
    forall i, j | 0 <= i < j < |ls[1..]| ensures Apart(ls[1..][i], ls[1..][j]) {
      assert Apart(ls[i + 1], ls[j + 1]);
    }
  }

  lemma {:induction false} TypeAtNone(ls: LockList, owner: nat, x: int)
    ensures (forall i :: 0 <= i < |ls| ==> !Covers(ls[i], owner, x)) ==> TypeAt(ls, owner, x) == Unlock
    ensures TypeAt(ls, owner, x) != Unlock ==>
      exists i :: 0 <= i < |ls| && Covers(ls[i], owner, x) && ls[i].typ == TypeAt(ls, owner, x)
  {
    if ls != [] && !Covers(ls[0], owner, x) {
      TypeAtNone(ls[1..], owner, x);
      if TypeAt(ls, owner, x) != Unlock {
        var i :| 0 <= i < |ls[1..]| && Covers(ls[1..][i], owner, x) && ls[1..][i].typ == TypeAt(ls, owner, x);
        assert ls[i + 1] == ls[1..][i];
      }
    }
  }

  /** In a list without unlock records the first part decides unless it has nothing on the byte. */
  lemma {:induction false} TypeAtConcat(a: LockList, b: LockList, owner: nat, x: int)
    requires forall i :: 0 <= i < |a| ==> a[i].typ != Unlock
    ensures TypeAt(a + b, owner, x) == if TypeAt(a, owner, x) != Unlock then TypeAt(a, owner, x) else TypeAt(b, owner, x)
  {
    if a == [] {
      assert a + b == b;
    } else {
      assert (a + b)[1..] == a[1..] + b;
      TypeAtConcat(a[1..], b, owner, x);
    }
  }

  predicate NoUnlock(ls: LockList)
  {
    forall i :: 0 <= i < |ls| ==> ls[i].typ != Unlock
  }

  function Either(a: LockType, b: LockType): LockType { if a != Unlock then a else b }

  lemma {:induction false} TypeAtThree(a: LockList, p: LockList, b: LockList, owner: nat, x: int)
    requires NoUnlock(a) && NoUnlock(p)
    ensures TypeAt(a + p + b, owner, x) == Either(TypeAt(a, owner, x), Either(TypeAt(p, owner, x), TypeAt(b, owner, x)))
  {
    assert a + p + b == a + (p + b);
    TypeAtConcat(a, p + b, owner, x);
    TypeAtConcat(p, b, owner, x);
  }

  /** Replacing a record by pieces of it changes only the bytes the pieces leave out. */
  lemma {:induction false} ReplaceAt(a: LockList, l: Lock, pieces: LockList, b: LockList, owner: nat, x: int)
    requires NoUnlock(a) && NoUnlock([l]) && NoUnlock(pieces)
    requires TypeAt(pieces, owner, x) == TypeAt([l], owner, x)
    ensures TypeAt(a + pieces + b, owner, x) == TypeAt(a + [l] + b, owner, x)
  {
    TypeAtThree(a, pieces, b, owner, x);
    TypeAtThree(a, [l], b, owner, x);
  }

  lemma {:induction false} ReplaceOutside(a: LockList, l: Lock, pieces: LockList, b: LockList, lock: Lock)
    requires NoUnlock(a) && NoUnlock([l]) && NoUnlock(pieces)
    requires forall o, x {:trigger TypeAt(pieces, o, x)} :: !Covers(lock, o, x) ==> TypeAt(pieces, o, x) == TypeAt([l], o, x)
    ensures forall o, x {:trigger TypeAt(a + pieces + b, o, x)} ::
              !Covers(lock, o, x) ==> TypeAt(a + pieces + b, o, x) == TypeAt(a + [l] + b, o, x)
  {
    forall o, x | !Covers(lock, o, x) ensures TypeAt(a + pieces + b, o, x) == TypeAt(a + [l] + b, o, x) {
      assert TypeAt(pieces, o, x) == TypeAt([l], o, x);
      ReplaceAt(a, l, pieces, b, o, x);
    }
  }

  // ------------------------------------------------- the state of an insertion

  /** What byte `x` must end up with once `req` has been applied to `before`. */
  function Target(before: LockList, req: Lock, owner: nat, x: int): LockType
  {
    if Covers(req, owner, x) then req.typ else TypeAt(before, owner, x)
  }

  /** Outside the byte range still to be inserted the list is already right; inside, one type is wanted. */
  ghost predicate OnTarget(before: LockList, req: Lock, ls: LockList, lock: Lock)
  {
    forall o, x {:trigger TypeAt(ls, o, x)} ::
      if Covers(lock, o, x) then Target(before, req, o, x) == lock.typ
      else TypeAt(ls, o, x) == Target(before, req, o, x)
  }

  /** The loop invariant of locks_insert: everything before position `lp` lies clear of the new lock. */
  ghost predicate Inserting(before: LockList, req: Lock, ls: LockList, lp: nat, lock: Lock)
  {
    && Canonical(ls) && ValidRange(lock) && lp <= |ls|
    && lock == req.(start := lock.start, end := lock.end)
    && OnTarget(before, req, ls, lock)
    && (lock.typ == Unlock ==> lock == req)
    && forall i :: 0 <= i < lp ==> Apart(ls[i], lock)
  }

  /** Everything from position `lp` on lies clear of the new lock, too. */
  ghost predicate ClearAfter(ls: LockList, lp: nat, lock: Lock)
  {
    forall j :: lp <= j < |ls| ==> Apart(lock, ls[j])
  }

  lemma CanonicalReplace(a: LockList, l: Lock, pieces: LockList, b: LockList)
    requires Canonical(a + [l] + b) && Canonical(pieces)
    requires forall i :: 0 <= i < |pieces| ==>
      pieces[i].owner == l.owner && pieces[i].typ == l.typ && l.start <= pieces[i].start && pieces[i].end <= l.end
    ensures Canonical(a + pieces + b)
  {
    var was, now := a + [l] + b, a + pieces + b;
    var n := |a|;
    assert was[n] == l;
    forall i | 0 <= i < |now| ensures ValidRange(now[i]) && now[i].typ != Unlock {
      if i < n { assert now[i] == was[i]; }
      else if i < n + |pieces| { assert now[i] == pieces[i - n]; }
      else { assert now[i] == was[i - |pieces| + 1]; }
    }
    forall i, j | 0 <= i < j < |now| ensures Apart(now[i], now[j]) {
      var i' := if i < n then i else if i < n + |pieces| then n else i - |pieces| + 1;
      var j' := if j < n then j else if j < n + |pieces| then n else j - |pieces| + 1;
      if i' < j' {
        assert Apart(was[i'], was[j']);
      } else {
        assert Apart(pieces[i - n], pieces[j - n]);
      }
    }
  }

  /** One step of the loop replaces the record at `lp` by the parts of it outside the new lock. */
  lemma {:induction false} CutStep(before: LockList, req: Lock, ls: LockList, lp: nat, lock: Lock, pieces: LockList)
    requires Inserting(before, req, ls, lp, lock) && lp < |ls| && Canonical(pieces)
    requires forall i :: 0 <= i < |pieces| ==>
      pieces[i].owner == ls[lp].owner && pieces[i].typ == ls[lp].typ &&
      ls[lp].start <= pieces[i].start && pieces[i].end <= ls[lp].end
    requires forall o, x {:trigger TypeAt(pieces, o, x)} :: !Covers(lock, o, x) ==> TypeAt(pieces, o, x) == TypeAt([ls[lp]], o, x)
    ensures Inserting(before, req, ls[..lp] + pieces + ls[lp + 1..], lp, lock)
  {
    var a, l, b := ls[..lp], ls[lp], ls[lp + 1..];
    assert ls == a + [l] + b;
    CanonicalReplace(a, l, pieces, b);
    var now := a + pieces + b;
    ReplaceOutside(a, l, pieces, b, lock);
    SameOutside(before, req, ls, now, lock);
  }

  lemma {:induction false} SameOutside(before: LockList, req: Lock, ls: LockList, ls': LockList, lock: Lock)
    requires OnTarget(before, req, ls, lock)
    requires forall o, x {:trigger TypeAt(ls', o, x)} :: !Covers(lock, o, x) ==> TypeAt(ls', o, x) == TypeAt(ls, o, x)
    ensures OnTarget(before, req, ls', lock)
  {
    forall o, x
      ensures if Covers(lock, o, x) then Target(before, req, o, x) == lock.typ
              else TypeAt(ls', o, x) == Target(before, req, o, x)
    {
      assert TypeAt(ls, o, x) == TypeAt(ls, o, x);
    }
  }

  lemma OneRecord(l: Lock, o: nat, x: int)
    ensures TypeAt([l], o, x) == if Covers(l, o, x) then l.typ else Unlock
  {
  }

  lemma SplitPieces(l: Lock, lock: Lock)
    requires l.owner == lock.owner && l.start < lock.start <= lock.end < l.end
    ensures var pieces := [l.(end := lock.start - 1), l.(start := lock.end + 1)];
      forall o, x {:trigger TypeAt(pieces, o, x)} :: !Covers(lock, o, x) ==> TypeAt(pieces, o, x) == TypeAt([l], o, x)
  {
    var a, b := l.(end := lock.start - 1), l.(start := lock.end + 1);
    forall o, x ensures TypeAt([a, b], o, x) ==
      if Covers(a, o, x) then a.typ else if Covers(b, o, x) then b.typ else Unlock
    {
      assert [a, b][1..] == [b];
      OneRecord(b, o, x);
    }
  }

  /** Joining a touching record of the same type to the new lock wants the same bytes. */
  lemma ExtendStep(before: LockList, req: Lock, ls: LockList, lp: nat, lock: Lock, wider: Lock)
    requires Inserting(before, req, ls, lp, lock) && lp < |ls|
    requires ls[lp].owner == lock.owner && ls[lp].typ == lock.typ
    requires lock.start - 1 <= ls[lp].end && ls[lp].start - 1 <= lock.end
    requires wider == lock.(start := if ls[lp].start < lock.start then ls[lp].start else lock.start,
                            end := if lock.end < ls[lp].end then ls[lp].end else lock.end)
    ensures Inserting(before, req, ls, lp, wider)
  {
    var l := ls[lp];
    forall o, x ensures if Covers(wider, o, x) then Target(before, req, o, x) == wider.typ
                        else TypeAt(ls, o, x) == Target(before, req, o, x)
    {
      assert TypeAt(ls, o, x) == TypeAt(ls, o, x);
      if Covers(l, o, x) { TypeAtIndex(ls, o, x, lp); }
    }
    forall i | 0 <= i < lp ensures Apart(ls[i], wider) { assert Apart(ls[i], l); }
  }

  /** A record lying clear after the new lock means everything behind it does. */
  lemma BreakClear(ls: LockList, lp: nat, lock: Lock)
    requires Canonical(ls) && lp < |ls| && ls[lp].owner == lock.owner && Apart(lock, ls[lp])
    ensures ClearAfter(ls, lp, lock)
  {
    forall j | lp <= j < |ls| ensures Apart(lock, ls[j]) {
      if j > lp { assert Apart(ls[lp], ls[j]); }
    }
  }

  /** A record of the same type that covers the new lock already says everything. */
  lemma CoveredDone(before: LockList, req: Lock, ls: LockList, lp: nat, lock: Lock)
    requires Inserting(before, req, ls, lp, lock) && lp < |ls|
    requires ls[lp].owner == lock.owner && ls[lp].typ == lock.typ
    requires ls[lp].start <= lock.start && lock.end <= ls[lp].end
    ensures forall o, x :: TypeAt(ls, o, x) == Target(before, req, o, x)
  {
    forall o, x ensures TypeAt(ls, o, x) == Target(before, req, o, x) {
      assert TypeAt(ls, o, x) == TypeAt(ls, o, x);
      if Covers(lock, o, x) { TypeAtIndex(ls, o, x, lp); }
    }
  }

  /** Putting the new lock (or nothing, for an unlock) at the place found completes the update. */
  lemma InsertDone(before: LockList, req: Lock, ls: LockList, lp: nat, lock: Lock, result: LockList)
    requires Inserting(before, req, ls, lp, lock) && ClearAfter(ls, lp, lock)
    requires result == if lock.typ == Unlock then ls else ls[..lp] + [lock] + ls[lp..]
    ensures Canonical(result)
    ensures forall o, x :: TypeAt(result, o, x) == Target(before, req, o, x)
  {
    if lock.typ != Unlock {
      forall i | 0 <= i < |result| ensures ValidRange(result[i]) && result[i].typ != Unlock {
        if i != lp { assert result[i] == ls[if i < lp then i else i - 1]; }
      }
      forall i, j | 0 <= i < j < |result| ensures Apart(result[i], result[j]) {
        if i != lp && j != lp {
          assert Apart(ls[if i < lp then i else i - 1], ls[if j < lp then j else j - 1]);
        }
      }
    }
    forall o, x ensures TypeAt(result, o, x) == Target(before, req, o, x) {
      assert TypeAt(ls, o, x) == TypeAt(ls, o, x);
      InsertedAt(ls, lp, lock, result, o, x);
    }
  }

  lemma InsertedAt(ls: LockList, lp: nat, lock: Lock, result: LockList, o: nat, x: int)
    requires Canonical(ls) && lp <= |ls| && ClearAfter(ls, lp, lock)
    requires forall i :: 0 <= i < lp ==> Apart(ls[i], lock)
    requires result == if lock.typ == Unlock then ls else ls[..lp] + [lock] + ls[lp..]
    ensures TypeAt(result, o, x) == if Covers(lock, o, x) then lock.typ else TypeAt(ls, o, x)
  {
    if Covers(lock, o, x) {
      forall i | 0 <= i < |ls| ensures !Covers(ls[i], o, x) {
        if i < lp { assert Apart(ls[i], lock); } else { assert Apart(lock, ls[i]); }
      }
      TypeAtNone(ls, o, x);
    }
    if lock.typ != Unlock {
      var a, b := ls[..lp], ls[lp..];
      assert ls == a + b && a + [lock] + b == a + ([lock] + b);
      TypeAtConcat(a, b, o, x);
      TypeAtConcat(a, [lock] + b, o, x);
      TypeAtConcat([lock], b, o, x);
    }
  }

  lemma StartInserting(ls: LockList, req: Lock)
    requires Canonical(ls) && ValidRange(req)
    ensures Inserting(ls, req, ls, 0, req)
  {
    forall o, x ensures if Covers(req, o, x) then Target(ls, req, o, x) == req.typ
                        else TypeAt(ls, o, x) == Target(ls, req, o, x) { }
  }

  class Node {
    /** The record list of the file, in list order. */
    var locks: LockList

    /**
      The part of the loop that meets a record of the owner with another type: what overlaps the new
      lock is cut away; `clear` when nothing behind it can overlap any more.
     */
    method CutRecord(lp: nat, lock: Lock, newl2: bool, ghost before: LockList, ghost req: Lock)
        returns (next: nat, spare: bool, clear: bool)
      requires Inserting(before, req, locks, lp, lock)
      requires lp < |locks| && locks[lp].owner == lock.owner && locks[lp].typ != lock.typ
      requires newl2 || lock.end < locks[lp].start || lock.start == 0
      modifies this
      ensures Inserting(before, req, locks, next, lock) && (clear ==> ClearAfter(locks, next, lock))
      ensures |locks| <= |old(locks)| + (if newl2 && !spare then 1 else 0) && (spare ==> newl2)
      ensures !clear ==> |locks| - next < |old(locks)| - lp || (newl2 && !spare && |locks| - next == |old(locks)| - lp)
      ensures !clear && newl2 && !spare ==>
        next < |locks| && locks[next].owner == lock.owner && locks[next].typ != lock.typ && lock.end < locks[next].start
      ensures !newl2 && lock.end < old(locks)[lp].start ==> clear
    {
      next, spare, clear := lp, newl2, false;
      var l := locks[lp];
      ghost var was := locks;
      if l.end < lock.start {
        next := lp + 1;
      } else if lock.end < l.start {
        BreakClear(locks, lp, lock);
        clear := true;
      } else if lock.start <= l.start && l.end <= lock.end {
        CutStep(before, req, locks, lp, lock, []);
        locks := locks[..lp] + locks[lp + 1..];
        assert locks == was[..lp] + [] + was[lp + 1..];
      } else if l.end <= lock.end {
        CutStep(before, req, locks, lp, lock, [l.(end := lock.start - 1)]);
        locks := locks[lp := l.(end := lock.start - 1)];
        assert locks == was[..lp] + [l.(end := lock.start - 1)] + was[lp + 1..];
        next := lp + 1;
      } else if lock.start <= l.start {
        CutStep(before, req, locks, lp, lock, [l.(start := lock.end + 1)]);
        locks := locks[lp := l.(start := lock.end + 1)];
        assert locks == was[..lp] + [l.(start := lock.end + 1)] + was[lp + 1..];
        BreakClear(locks, lp, lock);
        clear := true;
      } else {
        // the one place that takes the second preallocated record
        assert newl2;
        spare := false;
        ghost var pieces := [l.(end := lock.start - 1), l.(start := lock.end + 1)];
        SplitPieces(l, lock);
        CutStep(before, req, locks, lp, lock, pieces);
        locks := locks[lp := l.(end := lock.start - 1)];
        locks := locks[..lp + 1] + [l.(start := lock.end + 1)] + locks[lp + 1..];
        assert locks == was[..lp] + pieces + was[lp + 1..];
        next := lp + 1;
      }
    }

    /**
      locks_insert: gives `req.owner` the type `req.typ` on the bytes of `req`.  Afterwards every byte
      of that owner inside the range has the new type, every other byte and every other owner is as
      before, and the records are again sorted, disjoint and maximal.  Fails only when the records
      that may be needed cannot be allocated; unlocking everything needs none.
     */
    method LocksInsert(req: Lock, haveMemory: bool) returns (ok: bool)
      requires Canonical(locks) && ValidRange(req)
      modifies this
      ensures ok <==> haveMemory || (req.typ == Unlock && req.start == 0 && req.end == OFFSET_MAX)
      ensures !ok ==> locks == old(locks)
      ensures Canonical(locks)
      ensures ok ==> forall o, x :: TypeAt(locks, o, x) == Target(old(locks), req, o, x)
      ensures |locks| <= |old(locks)| + 2
      ensures !haveMemory ==> |locks| <= |old(locks)|
    {
      ghost var before := locks;
      var lock := req;
      var newl1, newl2 := false, false;
      if lock.typ != Unlock || lock.start != 0 || lock.end != OFFSET_MAX {
        if !haveMemory {
          return false;
        }
        newl1, newl2 := true, true;
      }
      var lp: nat := 0;
      StartInserting(locks, req);
      while lp < |locks|
        invariant Inserting(before, req, locks, lp, lock)
        invariant newl1 || (lock.typ == Unlock && lock.start == 0 && lock.end == OFFSET_MAX)
        invariant (newl1 ==> haveMemory) && (newl2 ==> newl1)
        invariant newl1 && !newl2 ==>
          lp < |locks| && locks[lp].owner == lock.owner && locks[lp].typ != lock.typ && lock.end < locks[lp].start
        invariant |locks| <= |before| + if newl1 && !newl2 then 1 else 0
        decreases |locks| - lp, newl2
      {
        var l := locks[lp];
        ghost var was := locks;
        if l.owner != lock.owner {
          lp := lp + 1;
        } else if lock.typ == l.typ {
          if l.end < lock.start - 1 {
            lp := lp + 1;
          } else if lock.end < l.start - 1 {
            BreakClear(locks, lp, lock);
            break;
          } else if l.start <= lock.start && lock.end <= l.end {
            CoveredDone(before, req, locks, lp, lock);
            return true;
          } else {
            ghost var narrow := lock;
            if l.start < lock.start {
              lock := lock.(start := l.start);
            }
            if lock.end < l.end {
              lock := lock.(end := l.end);
            }
            ExtendStep(before, req, locks, lp, narrow, lock);
            CutStep(before, req, locks, lp, lock, []);
            locks := locks[..lp] + locks[lp + 1..];
            assert locks == was[..lp] + [] + was[lp + 1..];
          }
        } else {
          var clear;
          lp, newl2, clear := CutRecord(lp, lock, newl2, before, req);
          if clear {
            break;
          }
        }
      }
      ghost var cut := locks;
      if lock.typ != Unlock {
        // the first preallocated record
        assert newl1;
        locks := locks[..lp] + [lock] + locks[lp..];
      }
      InsertDone(before, req, cut, lp, lock, locks);
      ok := true;
    }

    /** locks_conflict: the first record that stands in the way of `lock`. */
    method LocksConflict(lock: Lock) returns (r: Option<Lock>)
      requires Canonical(locks) && ValidRange(lock)
      ensures r.None? <==> !ConflictingByte(locks, lock)
      ensures r.Some? ==> r.value in locks && InTheWay(r.value, lock)
    {
      var i := 0;
      while i < |locks|
        invariant i <= |locks|
        invariant forall j :: 0 <= j < i ==> !InTheWay(locks[j], lock)
      {
        if InTheWay(locks[i], lock) {
          ConflictMeans(locks, lock);
          return Some(locks[i]);
        }
        i := i + 1;
      }
      ConflictMeans(locks, lock);
      r := None;
    }
  }

  /** The test of locks_conflict. */
  predicate InTheWay(l: Lock, lock: Lock)
  {
    l.owner != lock.owner && lock.start <= l.end && l.start <= lock.end &&
    (l.typ == WriteLock || lock.typ == WriteLock)
  }

  /** Some byte of the request is locked by another owner, and one of the two wants to write. */
  ghost predicate ConflictingByte(ls: LockList, lock: Lock)
  {
    exists o, x :: o != lock.owner && lock.start <= x <= lock.end &&
      TypeAt(ls, o, x) != Unlock && (TypeAt(ls, o, x) == WriteLock || lock.typ == WriteLock)
  }

  lemma ConflictMeans(ls: LockList, lock: Lock)
    requires Canonical(ls)
    ensures ConflictingByte(ls, lock) <==> exists i :: 0 <= i < |ls| && InTheWay(ls[i], lock) && lock.start <= lock.end
  {
    if ConflictingByte(ls, lock) {
      var o, x :| o != lock.owner && lock.start <= x <= lock.end &&
        TypeAt(ls, o, x) != Unlock && (TypeAt(ls, o, x) == WriteLock || lock.typ == WriteLock);
      TypeAtNone(ls, o, x);
      var i :| 0 <= i < |ls| && Covers(ls[i], o, x) && ls[i].typ == TypeAt(ls, o, x);
      assert InTheWay(ls[i], lock);
    }
    if i :| 0 <= i < |ls| && InTheWay(ls[i], lock) && lock.start <= lock.end {
      var x := if ls[i].start < lock.start then lock.start else ls[i].start;
      TypeAtIndex(ls, ls[i].owner, x, i);
    }
  }

  // ------------------------------------------------------------ canonical form

  /** The records of one owner, in list order. */
  function RecordsOf(ls: LockList, owner: nat): LockList
  {
    if ls == [] then []
    else if ls[0].owner == owner then [ls[0]] + RecordsOf(ls[1..], owner)
    else RecordsOf(ls[1..], owner)
  }

  lemma {:induction false} RecordsOfCanonical(ls: LockList, owner: nat)
    requires Canonical(ls)
    ensures Canonical(RecordsOf(ls, owner))
    ensures forall l :: l in RecordsOf(ls, owner) ==> l in ls && l.owner == owner
    ensures forall x :: TypeAt(RecordsOf(ls, owner), owner, x) == TypeAt(ls, owner, x)
  {
    if ls != [] {
      CanonicalTail(ls);
      RecordsOfCanonical(ls[1..], owner);
      var rest := RecordsOf(ls[1..], owner);
      if ls[0].owner == owner {
        var all := [ls[0]] + rest;
        forall i, j | 0 <= i < j < |all| ensures Apart(all[i], all[j]) {
          if i == 0 {
            var k :| 0 <= k < |ls[1..]| && ls[1..][k] == rest[j - 1];
            assert Apart(ls[0], ls[k + 1]);
          } else {
            assert Apart(rest[i - 1], rest[j - 1]);
          }
        }
        assert all[1..] == rest;
      }
    }
  }

  predicate SameRange(a: Lock, b: Lock)
  {
    a.typ == b.typ && a.start == b.start && a.end == b.end && a.owner == b.owner
  }

  /**
    The canonical list is determined by its meaning: two lists that give an owner the same type on
    every byte have the same records of that owner, in the same order (process ids aside).
   */
  lemma CanonicalUnique(a: LockList, b: LockList, owner: nat)
    requires Canonical(a) && Canonical(b)
    requires forall x :: TypeAt(a, owner, x) == TypeAt(b, owner, x)
    ensures |RecordsOf(a, owner)| == |RecordsOf(b, owner)|
    ensures forall i :: 0 <= i < |RecordsOf(a, owner)| ==> SameRange(RecordsOf(a, owner)[i], RecordsOf(b, owner)[i])
  {
    RecordsOfCanonical(a, owner);
    RecordsOfCanonical(b, owner);
    OwnListUnique(RecordsOf(a, owner), RecordsOf(b, owner), owner);
  }

  lemma {:induction false} OwnListUnique(a: LockList, b: LockList, owner: nat)
    requires Canonical(a) && Canonical(b)
    requires forall l :: l in a || l in b ==> l.owner == owner
    requires forall x :: TypeAt(a, owner, x) == TypeAt(b, owner, x)
    ensures |a| == |b| && forall i :: 0 <= i < |a| ==> SameRange(a[i], b[i])
  {
    if a != [] && b != [] {
      FirstRecordBounds(a, b, owner);
      FirstRecordBounds(b, a, owner);
      CanonicalTail(a);
      CanonicalTail(b);
      forall x ensures TypeAt(a[1..], owner, x) == TypeAt(b[1..], owner, x) {
        assert TypeAt(a, owner, x) == TypeAt(b, owner, x);
        BehindFirst(a, owner, x);
        BehindFirst(b, owner, x);
      }
      OwnListUnique(a[1..], b[1..], owner);
      forall i | 0 <= i < |a| ensures SameRange(a[i], b[i]) {
        if i > 0 { assert SameRange(a[1..][i - 1], b[1..][i - 1]); }
      }
    } else if a != [] {
      TypeAtIndex(a, owner, a[0].start, 0);
    } else if b != [] {
      TypeAtIndex(b, owner, b[0].start, 0);
    }
  }

  lemma BehindFirst(a: LockList, owner: nat, x: int)
    requires Canonical(a) && a != [] && forall l :: l in a ==> l.owner == owner
    ensures TypeAt(a[1..], owner, x) == if x <= a[0].end then Unlock else TypeAt(a, owner, x)
  {
    if x <= a[0].end {
      forall i | 0 <= i < |a[1..]| ensures !Covers(a[1..][i], owner, x) { assert Apart(a[0], a[i + 1]); }
      TypeAtNone(a[1..], owner, x);
    }
  }

  /** The first record of `b` starts no earlier, has the same type and ends no later than that of `a`. */
  lemma FirstRecordBounds(a: LockList, b: LockList, owner: nat)
    requires Canonical(a) && Canonical(b) && a != [] && b != []
    requires forall l :: l in a || l in b ==> l.owner == owner
    requires forall x :: TypeAt(a, owner, x) == TypeAt(b, owner, x)
    ensures a[0].start <= b[0].start
    ensures a[0].start == b[0].start ==> a[0].typ == b[0].typ && b[0].end <= a[0].end
  {
    var x := b[0].start;
    assert TypeAt(a, owner, x) == TypeAt(b, owner, x) == b[0].typ;
    TypeAtNone(a, owner, x);
    var i :| 0 <= i < |a| && Covers(a[i], owner, x);
    assert forall k :: 0 < k < |a| ==> Apart(a[0], a[k]);
    TypeChangesPastFirst(a, owner);
    var y := a[0].end + 1;
    assert TypeAt(a, owner, y) == TypeAt(b, owner, y);
  }

  /** Maximality: right behind the first record the type is another one. */
  lemma TypeChangesPastFirst(a: LockList, owner: nat)
    requires Canonical(a) && a != [] && forall l :: l in a ==> l.owner == owner
    ensures TypeAt(a, owner, a[0].end + 1) != a[0].typ
  {
    var y := a[0].end + 1;
    TypeAtNone(a, owner, y);
    if TypeAt(a, owner, y) != Unlock {
      var j :| 0 <= j < |a| && Covers(a[j], owner, y) && a[j].typ == TypeAt(a, owner, y);
      assert a[0] in a && Apart(a[0], a[j]);
    }
  }

  // -------------------------------------------------------------------- runs

  /** What a sequence of lock requests means for one byte: the last request of the owner that covers it. */
  function Meaning(reqs: seq<Lock>, owner: nat, x: int): LockType
  {
    if reqs == [] then Unlock
    else if Covers(reqs[|reqs| - 1], owner, x) then reqs[|reqs| - 1].typ
    else Meaning(reqs[..|reqs| - 1], owner, x)
  }

  /** What one successful LocksInsert guarantees. */
  ghost predicate Inserted(before: LockList, req: Lock, after: LockList)
  {
    Canonical(after) && forall o, x :: TypeAt(after, o, x) == Target(before, req, o, x)
  }

  /** After any run of successful insertions every byte has exactly the type the last request for it gave it. */
  lemma {:induction false} RunMeans(lists: seq<LockList>, reqs: seq<Lock>, owner: nat, x: int)
    requires |lists| == |reqs| + 1 && lists[0] == []
    requires forall k :: 0 <= k < |reqs| ==> Inserted(lists[k], reqs[k], lists[k + 1])
    ensures Canonical(lists[|reqs|])
    ensures TypeAt(lists[|reqs|], owner, x) == Meaning(reqs, owner, x)
  {
    if reqs != [] {
      var n := |reqs| - 1;
      forall k | 0 <= k < n ensures Inserted(lists[..n + 1][k], reqs[..n][k], lists[..n + 1][k + 1]) {
        assert Inserted(lists[k], reqs[k], lists[k + 1]);
      }
      RunMeans(lists[..n + 1], reqs[..n], owner, x);
      assert Inserted(lists[n], reqs[n], lists[n + 1]);
      assert TypeAt(lists[n + 1], owner, x) == Target(lists[n], reqs[n], owner, x);
    }
  }
}
