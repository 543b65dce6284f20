/**
  How the allocator lays the heap out: blocks one after the other from the first address to the
  break, each a header of BLOCK_SIZE bytes followed by its payload.
 */
module HeapLayout {
  import opened Wrappers

  const BLOCK_SIZE: nat := 40

  datatype Chunk = Chunk(size: nat, free: bool)

  type Layout = seq<Chunk>

  /** A block in use: where its header is, and how large its payload. */
  datatype Allocation = Allocation(addr: nat, size: nat)

  /** Address of block `i`, counted from the first block; for i == |l|, the break. */
  ghost function Addr(l: Layout, i: nat): nat
    requires i <= |l|
  {
    if i == 0 then 0 else Addr(l, i - 1) + BLOCK_SIZE + l[i - 1].size
  }

  ghost function Break(l: Layout): nat { Addr(l, |l|) }

  lemma {:induction false} AddrMono(l: Layout, i: nat, j: nat)
    requires i < j <= |l|
    ensures Addr(l, i) + BLOCK_SIZE + l[i].size <= Addr(l, j)
  {
    if i + 1 < j { AddrMono(l, i, j - 1); }
  }

  lemma {:induction false} AddrPrefix(l: Layout, m: Layout, i: nat)
    requires i <= |l| && i <= |m| && forall k :: 0 <= k < i ==> l[k].size == m[k].size
    ensures Addr(l, i) == Addr(m, i)
  {
    if i > 0 { AddrPrefix(l, m, i - 1); }
  }

  lemma {:induction false} AddrShift(l: Layout, m: Layout, i: nat, j: nat, n: nat)
    requires i + n <= |l| && j + n <= |m| && Addr(l, i) == Addr(m, j)
    requires forall k :: i <= k < i + n ==> l[k].size == m[k - i + j].size
    ensures Addr(l, i + n) == Addr(m, j + n)
  {
    if n > 0 {
      AddrShift(l, m, i, j, n - 1);
      assert l[i + n - 1].size == m[j + n - 1].size;
    }
  }

  // ------------------------------------------------------------- allocations

  ghost function Place(l: Layout, i: nat): Allocation
    requires i < |l|
  {
    Allocation(Addr(l, i), l[i].size)
  }

  /** The blocks in use, as a set of places. */
  ghost function Used(l: Layout): set<Allocation>
  {
    set i {:trigger Place(l, i)} | 0 <= i < |l| && !l[i].free :: Place(l, i)
  }

  lemma UsedAt(l: Layout, i: nat)
    requires i < |l| && !l[i].free
    ensures Place(l, i) in Used(l)
  {
  }

  lemma UsedIndex(l: Layout, x: Allocation) returns (i: nat)
    requires x in Used(l)
    ensures i < |l| && !l[i].free && x == Place(l, i)
  {
    i :| 0 <= i < |l| && !l[i].free && x == Place(l, i);
  }

  /** No two neighbours are both free. */
  ghost predicate Coalesced(l: Layout)
  {
    forall i :: 0 <= i && i + 1 < |l| ==> !(l[i].free && l[i + 1].free)
  }

  /** Allocations never overlap each other, nor anyone's header, and end at or before the break. */
  lemma UsedDisjoint(l: Layout, x: Allocation, y: Allocation)
    requires x in Used(l) && y in Used(l)
    ensures x == y || x.addr + BLOCK_SIZE + x.size <= y.addr || y.addr + BLOCK_SIZE + y.size <= x.addr
    ensures x.addr + BLOCK_SIZE + x.size <= Break(l)
  {
    var i := UsedIndex(l, x);
    var j := UsedIndex(l, y);
    AddrMono(l, i, |l|);
    if i < j { AddrMono(l, i, j); } else if j < i { AddrMono(l, j, i); }
  }

  /** An allocation lies outside every free block, header included, and outside every header. */
  lemma UsedOutside(l: Layout, x: Allocation, i: nat)
    requires x in Used(l) && i < |l|
    ensures l[i].free ==> x.addr + BLOCK_SIZE + x.size <= Addr(l, i) || Addr(l, i + 1) <= x.addr
    ensures x.addr + BLOCK_SIZE + x.size <= Addr(l, i) || Addr(l, i) <= x.addr
  {
    var j := UsedIndex(l, x);
    if i < j { AddrMono(l, i, j); } else if j < i { AddrMono(l, j, i); }
  }

  // -------------------------------------------------------------- operations

  /** mm_malloc's search: the first free block that could hold the request and another header. */
  function FirstFit(l: Layout, n: nat): (i: nat)
    ensures i <= |l| && (i < |l| ==> l[i].free && l[i].size >= n + BLOCK_SIZE)
    ensures forall j :: 0 <= j < i ==> !(l[j].free && l[j].size >= n + BLOCK_SIZE)
  {
    if l == [] || (l[0].free && l[0].size >= n + BLOCK_SIZE) then 0 else 1 + FirstFit(l[1..], n)
  }

  lemma FirstFitIs(l: Layout, n: nat, i: nat)
    requires i <= |l| && (i < |l| ==> l[i].free && l[i].size >= n + BLOCK_SIZE)
    requires forall j :: 0 <= j < i ==> !(l[j].free && l[j].size >= n + BLOCK_SIZE)
    ensures FirstFit(l, n) == i
  {
  }

  /** Block `i` cut in two, the first of size `n`. */
  function Split(l: Layout, i: nat, n: nat, first: bool, second: bool): Layout
    requires i < |l| && l[i].size >= n + BLOCK_SIZE
  {
    l[..i] + [Chunk(n, first), Chunk(l[i].size - n - BLOCK_SIZE, second)] + l[i + 1..]
  }

  /** Block `i` and the next one as one block. */
  function Fuse(l: Layout, i: nat): Layout
    requires i + 1 < |l|
  {
    l[..i] + [Chunk(l[i].size + BLOCK_SIZE + l[i + 1].size, l[i].free)] + l[i + 2..]
  }

  /** mm_malloc: splits the block found, takes it whole if it is larger by just a header, or else extends the heap. */
  function Allocate(l: Layout, n: nat): Layout
  {
    var i := FirstFit(l, n);
    if i == |l| then l + [Chunk(n, false)]
    else if l[i].size > n + BLOCK_SIZE then Split(l, i, n, false, true)
    else l[i := Chunk(l[i].size, false)]
  }

  lemma FuseAddr(l: Layout, i: nat)
    requires i + 1 < |l|
    ensures forall j :: 0 <= j <= i ==> Addr(Fuse(l, i), j) == Addr(l, j)
    ensures forall j :: i < j < |l| ==> Addr(Fuse(l, i), j) == Addr(l, j + 1)
  {
    var m := Fuse(l, i);
    forall j | 0 <= j <= i ensures Addr(m, j) == Addr(l, j) { AddrPrefix(l, m, j); }
    forall j | i < j < |l| ensures Addr(m, j) == Addr(l, j + 1) {
      assert Addr(m, i + 1) == Addr(l, i + 2);
      AddrShift(m, l, i + 1, i + 2, j - i - 1);
    }
  }

  lemma SplitAddr(l: Layout, i: nat, n: nat, first: bool, second: bool)
    requires i < |l| && l[i].size >= n + BLOCK_SIZE
    ensures var m := Split(l, i, n, first, second);
            && (forall j :: 0 <= j <= i ==> Addr(m, j) == Addr(l, j))
            && Addr(m, i + 1) == Addr(l, i) + BLOCK_SIZE + n
            && (forall j :: i < j <= |l| ==> Addr(m, j + 1) == Addr(l, j))
  {
    var m := Split(l, i, n, first, second);
    forall j | 0 <= j <= i ensures Addr(m, j) == Addr(l, j) { AddrPrefix(l, m, j); }
    forall j | i < j <= |l| ensures Addr(m, j + 1) == Addr(l, j) {
      assert Addr(m, i + 2) == Addr(l, i + 1);
      AddrShift(m, l, i + 2, i + 1, j - i - 1);
    }
  }

  /** Changing who is free changes no address. */
  lemma FlagAddr(l: Layout, i: nat, free: bool)
    requires i < |l|
    ensures forall j :: 0 <= j <= |l| ==> Addr(l[i := Chunk(l[i].size, free)], j) == Addr(l, j)
  {
    var m := l[i := Chunk(l[i].size, free)];
    forall j | 0 <= j <= |l| ensures Addr(m, j) == Addr(l, j) { AddrPrefix(l, m, j); }
  }

  /**
    What allocating does, said without the list: one block more is in use, at least as large as
    asked for; nobody else's moves; the break grows, by the request and a header, exactly if no free
    block is larger than the request by at least a header.
   */
  lemma AllocateMeans(l: Layout, n: nat)
    ensures var i := FirstFit(l, n);
            var m := Allocate(l, n);
            && i < |m| && n <= m[i].size && !m[i].free && (i < |l| || m[i].size == n)
            && Place(m, i) !in Used(l) && Used(m) == Used(l) + {Place(m, i)}
            && Break(m) == (if exists j :: 0 <= j < |l| && l[j].free && l[j].size >= n + BLOCK_SIZE then Break(l)
                            else Break(l) + BLOCK_SIZE + n)
  {
    var i := FirstFit(l, n);
    assert i < |l| <==> exists j :: 0 <= j < |l| && l[j].free && l[j].size >= n + BLOCK_SIZE;
    if i == |l| { ExtendMeans(l, n); }
    else if l[i].size > n + BLOCK_SIZE { SplitMeans(l, i, n); }
    else { WholeMeans(l, i); }
  }

  lemma ExtendMeans(l: Layout, n: nat)
    ensures var m := l + [Chunk(n, false)];
            && Place(m, |l|) !in Used(l) && Used(m) == Used(l) + {Place(m, |l|)} && Break(m) == Break(l) + BLOCK_SIZE + n
  {
    var m := l + [Chunk(n, false)];
    forall j: nat | j < |l| ensures Same(l, j, m, j) { AddrPrefix(l, m, j); }
    AddrPrefix(l, m, |l|);
    UsedFrom(l, m, |l|, 0);
  }

  lemma SplitMeans(l: Layout, i: nat, n: nat)
    requires i < |l| && l[i].free && l[i].size >= n + BLOCK_SIZE
    ensures var m := Split(l, i, n, false, true);
            && Place(m, i) !in Used(l) && Used(m) == Used(l) + {Place(m, i)} && Break(m) == Break(l)
  {
    var m := Split(l, i, n, false, true);
    SplitAddr(l, i, n, false, true);
    UsedFrom(l, m, i, 1);
  }

  lemma WholeMeans(l: Layout, i: nat)
    requires i < |l| && l[i].free
    ensures var m := l[i := Chunk(l[i].size, false)];
            && Place(m, i) !in Used(l) && Used(m) == Used(l) + {Place(m, i)} && Break(m) == Break(l)
  {
    FlagAddr(l, i, false);
    UsedFrom(l, l[i := Chunk(l[i].size, false)], i, 0);
  }

  /** Block `j` of `l` is block `k` of `m`, and has not moved. */
  ghost predicate Same(l: Layout, j: nat, m: Layout, k: nat)
  {
    j < |l| && k < |m| && l[j] == m[k] && Addr(l, j) == Addr(m, k)
  }

  /** Blocks before `i` stay, block `i` of `m` is newly in use, blocks after it have moved by `shift` indices. */
  lemma UsedFrom(l: Layout, m: Layout, i: nat, shift: nat)
    requires i <= |l| && i < |m| && !m[i].free && (i < |l| ==> l[i].free && |m| == |l| + shift) && (i == |l| ==> |m| == i + 1)
    requires shift <= 1 && (shift == 1 ==> i + 1 < |m| && m[i + 1].free)
    requires forall j: nat, k: nat {:trigger Same(l, j, m, k)} ::
               (j < i && k == j) || (i < j < |l| && k == j + shift) ==> Same(l, j, m, k)
    requires i < |l| ==> Addr(m, i) == Addr(l, i)
    requires i == |l| ==> Addr(m, i) == Break(l)
    ensures Place(m, i) !in Used(l) && Used(m) == Used(l) + {Place(m, i)}
  {
    var x := Place(m, i);
    forall y | y in Used(l) ensures y in Used(m) && y.addr != x.addr {
      var j := UsedIndex(l, y);
      var k := if j < i then j else j + shift;
      assert Same(l, j, m, k);
      UsedAt(m, k);
      if j < i { AddrMono(m, k, i); } else { AddrMono(m, i, k); }
    }
    forall y | y in Used(m) && y != x ensures y in Used(l) {
      var j := UsedIndex(m, y);
      var k := if j < i then j else j - shift;
      assert Same(l, k, m, j);
      UsedAt(l, k);
    }
  }

  lemma AllocateCoalesced(l: Layout, n: nat)
    requires Coalesced(l)
    ensures Coalesced(Allocate(l, n))
  {
    var i := FirstFit(l, n);
    var m := Allocate(l, n);
    if i < |l| && l[i].size > n + BLOCK_SIZE {
      forall j | 0 <= j && j + 1 < |m| ensures !(m[j].free && m[j + 1].free) {
        if j > i { assert m[j + 1] == l[j]; assert j > i + 1 ==> m[j] == l[j - 1]; }
      }
    }
  }

  /** mm_free on block `i`: freed, and fused with its free neighbours, the one before first. */
  function Release(l: Layout, i: nat): Layout
    requires i < |l|
  {
    var m := l[i := Chunk(l[i].size, true)];
    if i > 0 && m[i - 1].free then FuseIfFree(Fuse(m, i - 1), i - 1) else FuseIfFree(m, i)
  }

  function FuseIfFree(l: Layout, i: nat): Layout
    requires i < |l|
  {
    if i + 1 < |l| && l[i + 1].free then Fuse(l, i) else l
  }

  /** Fusing two free blocks leaves the allocations and the break alone. */
  lemma FuseUsed(l: Layout, i: nat)
    requires i + 1 < |l| && l[i].free && l[i + 1].free
    ensures Used(Fuse(l, i)) == Used(l) && Break(Fuse(l, i)) == Break(l)
  {
    var m := Fuse(l, i);
    FuseAddr(l, i);
    forall y | y in Used(l) ensures y in Used(m) {
      var j := UsedIndex(l, y);
      var k := if j < i then j else j - 1;
      UsedAt(m, k);
    }
    forall y | y in Used(m) ensures y in Used(l) {
      var j := UsedIndex(m, y);
      var k := if j < i then j else j + 1;
      UsedAt(l, k);
    }
  }

  lemma FlagUsed(l: Layout, i: nat)
    requires i < |l| && !l[i].free
    ensures var m := l[i := Chunk(l[i].size, true)];
            Used(m) == Used(l) - {Place(l, i)} && Break(m) == Break(l)
  {
    var m := l[i := Chunk(l[i].size, true)];
    FlagAddr(l, i, true);
    forall y | y in Used(l) && y != Place(l, i) ensures y in Used(m) {
      var j := UsedIndex(l, y);
      UsedAt(m, j);
    }
    forall y | y in Used(m) ensures y in Used(l) && y != Place(l, i) {
      var j := UsedIndex(m, y);
      UsedAt(l, j);
      if j < i { AddrMono(l, j, i); } else { AddrMono(l, i, j); }
    }
  }

  lemma {:induction false} ReleaseCoalesced(l: Layout, i: nat)
    requires i < |l| && !l[i].free && Coalesced(l)
    ensures Coalesced(Release(l, i))
  {
    var r := Release(l, i);
    var left := if i > 0 && l[i - 1].free then 1 else 0;
    var right := if i + 1 < |l| && l[i + 1].free then 1 else 0;
    assert |r| == |l| - left - right;
    forall j | 0 <= j < |r| ensures r[j].free == if j < i - left then l[j].free else j == i - left || l[j + left + right].free { }
    forall j | 0 <= j && j + 1 < |r| ensures !(r[j].free && r[j + 1].free) {
      if j + 1 < i - left { assert !(l[j].free && l[j + 1].free); }
      else if j + 1 == i - left { assert left == 1 ==> !l[j].free; }
      else if j == i - left { assert right == 1 ==> !(l[i + 1].free && l[i + 2].free); }
      else { assert !(l[j + left + right].free && l[j + left + right + 1].free); }
    }
  }

  /** What freeing does: that allocation and no other is gone, the break stays, and no two neighbours are free. */
  lemma ReleaseMeans(l: Layout, i: nat)
    requires i < |l| && !l[i].free && Coalesced(l)
    ensures Used(Release(l, i)) == Used(l) - {Place(l, i)}
    ensures Break(Release(l, i)) == Break(l)
    ensures Coalesced(Release(l, i))
  {
    ReleaseCoalesced(l, i);
    var m := l[i := Chunk(l[i].size, true)];
    FlagUsed(l, i);
    if i > 0 && m[i - 1].free {
      FuseUsed(m, i - 1);
      var k := Fuse(m, i - 1);
      if i < |k| && k[i].free { FuseUsed(k, i - 1); }
    } else if i + 1 < |m| && m[i + 1].free {
      FuseUsed(m, i);
    }
  }

  // ------------------------------------------------------------- uniqueness

  /** The block lists agree up to block `k`. */
  ghost predicate Agree(l: Layout, m: Layout, k: nat)
  {
    k <= |l| && k <= |m| && l[..k] == m[..k]
  }

  lemma AgreeStep(l: Layout, m: Layout, k: nat)
    requires Coalesced(l) && Coalesced(m) && Used(l) == Used(m) && Break(l) == Break(m)
    requires Agree(l, m, k) && k < |l|
    ensures Agree(l, m, k + 1)
  {
    AddrPrefix(l, m, k);
    AddrMono(l, k, |l|);
    if k < |m| {
      AddrMono(m, k, |m|);
      NotLonger(l, m, k);
      NotLonger(m, l, k);
    }
  }

  /** Given the same allocations, a block starting at the same address is of the same kind and does not end earlier. */
  lemma NotLonger(l: Layout, m: Layout, k: nat)
    requires Coalesced(l) && Used(l) == Used(m) && Break(l) == Break(m)
    requires k < |l| && k < |m| && Addr(l, k) == Addr(m, k)
    ensures !l[k].free ==> l[k] == m[k]
    ensures l[k].free && m[k].free ==> l[k].size >= m[k].size
  {
    if !l[k].free {
      var x := Place(l, k);
      UsedAt(l, k);
      StartsAt(m, x, k);
    } else if m[k].free && l[k].size < m[k].size {
      AddrMono(m, k, |m|);
      assert Addr(l, k + 1) < Addr(m, k + 1);
      if k + 1 < |l| {
        var x := Place(l, k + 1);
        UsedAt(l, k + 1);
        UsedOutside(m, x, k);
        assert false;
      }
    }
  }

  lemma StartsAt(m: Layout, x: Allocation, k: nat)
    requires x in Used(m) && k < |m| && x.addr == Addr(m, k)
    ensures m[k] == Chunk(x.size, false)
  {
    var j := UsedIndex(m, x);
    if j < k { AddrMono(m, j, k); } else if k < j { AddrMono(m, k, j); }
    assert j == k;
  }

  lemma {:induction false} AgreeAll(l: Layout, m: Layout, k: nat)
    requires Coalesced(l) && Coalesced(m) && Used(l) == Used(m) && Break(l) == Break(m)
    requires Agree(l, m, k)
    ensures l == m
    decreases |l| - k
  {
    if k < |l| {
      AgreeStep(l, m, k);
      AgreeAll(l, m, k + 1);
    } else if k < |m| {
      AddrPrefix(l, m, k);
      AddrMono(m, k, |m|);
    }
  }

  /**
    The whole block list is determined by the allocations and the break: whatever was allocated and
    freed in between, fragmentation leaves no trace.
   */
  lemma LayoutUnique(l: Layout, m: Layout)
    requires Coalesced(l) && Coalesced(m) && Used(l) == Used(m) && Break(l) == Break(m)
    ensures l == m
  {
    AgreeAll(l, m, 0);
  }

  /** So freeing everything leaves one block that spans the heap. */
  lemma AllFreed(l: Layout)
    requires Coalesced(l) && Used(l) == {} && Break(l) > 0
    ensures Break(l) >= BLOCK_SIZE && l == [Chunk(Break(l) - BLOCK_SIZE, true)]
  {
    AddrMono(l, 0, |l|);
    var m := [Chunk(Break(l) - BLOCK_SIZE, true)];
    assert Addr(m, 1) == Addr(m, 0) + BLOCK_SIZE + m[0].size;
    LayoutUnique(l, m);
  }

  /** And freeing what has just been allocated, in the room there was, restores the list. */
  lemma FreeUndoesAllocate(l: Layout, n: nat)
    requires Coalesced(l) && FirstFit(l, n) < |l|
    ensures Release(Allocate(l, n), FirstFit(l, n)) == l
  {
    AllocateMeans(l, n);
    AllocateCoalesced(l, n);
    var i := FirstFit(l, n);
    var m := Allocate(l, n);
    ReleaseMeans(m, i);
    assert Used(Release(m, i)) == Used(l);
    LayoutUnique(Release(m, i), l);
  }

  /**
    A free block without room for the request and a header is not reused, not even one of exactly the
    size asked for: the heap grows instead.
   */
  lemma ExactFitIsNotReused(l: Layout, n: nat)
    requires forall i :: 0 <= i < |l| && l[i].free ==> l[i].size < n + BLOCK_SIZE
    ensures Allocate(l, n) == l + [Chunk(n, false)]
  {
    assert FirstFit(l, n) == |l|;
  }
}
