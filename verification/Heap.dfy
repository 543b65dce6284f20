/**
  The heap allocator: a doubly linked list of block headers kept inside the heap itself.
  Addresses count from the first block; the break is the length of `mem`.
 */
module Heap {
  import opened Wrappers
  import opened HeapLayout

  /** struct s_block */
  datatype Block = Block(size: nat, next: Option<nat>, prev: Option<nat>, free: bool, ptr: nat)

  ghost function BlockAt(l: Layout, i: nat): Block
    requires i < |l|
  {
    Block(l[i].size, if i + 1 < |l| then Some(Addr(l, i + 1)) else None, if i > 0 then Some(Addr(l, i - 1)) else None,
          l[i].free, Addr(l, i))
  }

  ghost predicate Header(meta: map<nat, Block>, l: Layout, i: nat)
    requires i < |l|
  {
    Addr(l, i) in meta && meta[Addr(l, i)] == BlockAt(l, i)
  }

  /** The headers describe the layout: sizes, flags, and each one's own, next and previous address. */
  ghost predicate Linked(meta: map<nat, Block>, l: Layout)
  {
    forall i: nat {:trigger Header(meta, l, i)} :: i < |l| ==> Header(meta, l, i)
  }

  // ------------------------------------------------------------ header updates

  lemma LinkedFlag(meta: map<nat, Block>, l: Layout, i: nat, free: bool)
    requires Linked(meta, l) && i < |l|
    ensures Header(meta, l, i)
    ensures Linked(meta[Addr(l, i) := meta[Addr(l, i)].(free := free)], l[i := Chunk(l[i].size, free)])
  {
    assert Header(meta, l, i);
    var m := l[i := Chunk(l[i].size, free)];
    var meta' := meta[Addr(l, i) := meta[Addr(l, i)].(free := free)];
    FlagAddr(l, i, free);
    forall j: nat | j < |m| ensures Header(meta', m, j) {
      assert Header(meta, l, j);
      if j < i { AddrMono(l, j, i); } else if i < j { AddrMono(l, i, j); }
    }
  }

  /** The headers after extend_heap. */
  ghost function Extended(meta: map<nat, Block>, l: Layout, n: nat): map<nat, Block>
    requires Linked(meta, l)
  {
    if l == [] then meta[0 := Block(n, None, None, false, 0)]
    else
      assert Header(meta, l, |l| - 1);
      var last := Addr(l, |l| - 1);
      meta[last := meta[last].(next := Some(Break(l)))][Break(l) := Block(n, None, Some(last), false, Break(l))]
  }

  lemma LinkedExtend(meta: map<nat, Block>, l: Layout, n: nat)
    requires Linked(meta, l)
    ensures Linked(Extended(meta, l, n), l + [Chunk(n, false)]) && Break(l + [Chunk(n, false)]) == Break(l) + BLOCK_SIZE + n
  {
    var m := l + [Chunk(n, false)];
    var meta' := Extended(meta, l, n);
    forall j | 0 <= j <= |l| ensures Addr(m, j) == Addr(l, j) { AddrPrefix(l, m, j); }
    forall j: nat | j < |m| ensures Header(meta', m, j) {
      if j < |l| {
        assert Header(meta, l, j);
        AddrMono(l, j, |l|);
        if j < |l| - 1 { AddrMono(l, j, |l| - 1); }
      }
    }
  }

  /** The headers after split_block, both parts free. */
  ghost function Halved(meta: map<nat, Block>, l: Layout, i: nat, n: nat): map<nat, Block>
    requires Linked(meta, l) && i < |l| && l[i].size >= n + BLOCK_SIZE
  {
    assert Header(meta, l, i);
    var b := Addr(l, i);
    var c := b + n + BLOCK_SIZE;
    var meta1 := meta[b := meta[b].(size := n, next := Some(c))];
    var meta2 :=
      if i + 1 == |l| then meta1
      else
        assert Header(meta, l, i + 1);
        meta1[Addr(l, i + 1) := meta[Addr(l, i + 1)].(prev := Some(c))];
    meta2[c := Block(l[i].size - n - BLOCK_SIZE, meta[b].next, Some(b), true, c)]
  }

  lemma SplitBelow(meta: map<nat, Block>, l: Layout, i: nat, n: nat, j: nat)
    requires Linked(meta, l) && j < i < |l| && l[i].size >= n + BLOCK_SIZE
    ensures Header(Halved(meta, l, i, n), Split(l, i, n, l[i].free, true), j)
  {
    SplitAddr(l, i, n, l[i].free, true);
    assert Header(meta, l, j);
    AddrMono(l, j, i);
    if i + 1 < |l| { AddrMono(l, j, i + 1); }
  }

  lemma SplitAbove(meta: map<nat, Block>, l: Layout, i: nat, n: nat, j: nat)
    requires Linked(meta, l) && i + 1 < j < |l| && l[i].size >= n + BLOCK_SIZE
    ensures Header(Halved(meta, l, i, n), Split(l, i, n, l[i].free, true), j + 1)
  {
    SplitAddr(l, i, n, l[i].free, true);
    assert Header(meta, l, j);
    AddrMono(l, i, j);
    AddrMono(l, i + 1, j);
    assert Addr(l, i + 1) == Addr(l, i) + BLOCK_SIZE + l[i].size;
  }

  lemma SplitAt(meta: map<nat, Block>, l: Layout, i: nat, n: nat)
    requires Linked(meta, l) && i < |l| && l[i].size >= n + BLOCK_SIZE
    ensures var m := Split(l, i, n, l[i].free, true);
            var meta' := Halved(meta, l, i, n);
            Header(meta', m, i) && Header(meta', m, i + 1) && (i + 1 < |l| ==> Header(meta', m, i + 2))
  {
    SplitAddr(l, i, n, l[i].free, true);
    assert Header(meta, l, i);
    assert Addr(l, i + 1) == Addr(l, i) + BLOCK_SIZE + l[i].size;
    if i + 1 < |l| { assert Header(meta, l, i + 1); }
  }

  lemma LinkedSplit(meta: map<nat, Block>, l: Layout, i: nat, n: nat)
    requires Linked(meta, l) && i < |l| && l[i].size >= n + BLOCK_SIZE
    ensures Linked(Halved(meta, l, i, n), Split(l, i, n, l[i].free, true))
  {
    var m := Split(l, i, n, l[i].free, true);
    SplitAt(meta, l, i, n);
    forall j: nat | j < |m| ensures Header(Halved(meta, l, i, n), m, j) {
      if j < i { SplitBelow(meta, l, i, n, j); } else if j > i + 2 { SplitAbove(meta, l, i, n, j - 1); }
    }
  }

  /** The headers after fusion of block i with the next one. */
  ghost function Fused(meta: map<nat, Block>, l: Layout, i: nat): map<nat, Block>
    requires Linked(meta, l) && i + 1 < |l|
  {
    assert Header(meta, l, i) && Header(meta, l, i + 1);
    var b, c := Addr(l, i), Addr(l, i + 1);
    var meta1 := meta[b := meta[b].(size := meta[b].size + meta[c].size + BLOCK_SIZE, next := meta[c].next)];
    if i + 2 == |l| then meta1
    else
      assert Header(meta, l, i + 2);
      meta1[Addr(l, i + 2) := meta[Addr(l, i + 2)].(prev := Some(b))]
  }

  lemma LinkedFuse(meta: map<nat, Block>, l: Layout, i: nat)
    requires Linked(meta, l) && i + 1 < |l|
    ensures Linked(Fused(meta, l, i), Fuse(l, i))
  {
    hide Addr, Break;
    var m := Fuse(l, i);
    var meta' := Fused(meta, l, i);
    FuseAddr(l, i);
    assert Header(meta, l, i) && Header(meta, l, i + 1);
    if i + 2 < |l| { assert Header(meta, l, i + 2); }
    forall j: nat | j < |m| ensures Header(meta', m, j) {
      if j < i {
        assert Header(meta, l, j);
        AddrMono(l, j, i);
        AddrMono(l, j, i + 1);
        if i + 2 < |l| { AddrMono(l, j, i + 2); }
      } else if j > i + 1 {
        assert Header(meta, l, j + 1);
        AddrMono(l, i, j + 1);
        AddrMono(l, i + 1, j + 1);
        AddrMono(l, i + 2, j + 1);
      } else {
        AddrMono(l, i, i + 1);
        if i + 2 < |l| { AddrMono(l, i, i + 2); AddrMono(l, i + 1, i + 2); }
      }
    }
  }

  // ------------------------------------------------------------------ memory

  /** No payload of `used` has changed. */
  ghost predicate Kept(used: set<Allocation>, mem: seq<nat>, mem': seq<nat>)
  {
    forall x, k {:trigger x in used, mem'[k]} ::
      x in used && x.addr + BLOCK_SIZE <= k < x.addr + BLOCK_SIZE + x.size && k < |mem| && k < |mem'| ==> mem'[k] == mem[k]
  }

  /** Bytes from lo to hi belong to no payload of `used`. */
  ghost predicate Outside(used: set<Allocation>, lo: nat, hi: nat)
  {
    forall x :: x in used ==> x.addr + BLOCK_SIZE + x.size <= lo || hi <= x.addr + BLOCK_SIZE
  }

  /** Only bytes from lo to hi have been written. */
  ghost predicate Wrote(mem: seq<nat>, mem': seq<nat>, lo: nat, hi: nat)
  {
    |mem| <= |mem'| && forall k {:trigger mem'[k]} :: 0 <= k < |mem| && !(lo <= k < hi) ==> mem'[k] == mem[k]
  }

  lemma KeptStep(used: set<Allocation>, mem: seq<nat>, mem1: seq<nat>, mem2: seq<nat>, a: nat, n: nat, lo: nat, hi: nat)
    requires Kept(used, mem, mem1) && Wrote(mem1, mem2, a, a + n) && Outside(used, lo, hi) && lo <= a && a + n <= hi
    requires |mem| <= |mem1|
    ensures Kept(used, mem, mem2)
  {
  }

  lemma HeaderOutside(l: Layout, i: nat)
    requires i < |l|
    ensures Outside(Used(l), Addr(l, i), Addr(l, i) + BLOCK_SIZE)
  {
    forall x | x in Used(l) ensures x.addr + BLOCK_SIZE + x.size <= Addr(l, i) || Addr(l, i) <= x.addr {
      UsedOutside(l, x, i);
    }
  }

  lemma FreeOutside(l: Layout, i: nat)
    requires i < |l| && l[i].free
    ensures Outside(Used(l), Addr(l, i), Addr(l, i + 1))
  {
    forall x | x in Used(l) ensures x.addr + BLOCK_SIZE + x.size <= Addr(l, i) || Addr(l, i + 1) <= x.addr {
      UsedOutside(l, x, i);
    }
  }

  function Zeros(n: nat): (z: seq<nat>)
    ensures |z| == n
  {
    seq(n, _ => 0)
  }

  /** Everything beyond the break is outside. */
  lemma BreakOutside(l: Layout, hi: nat)
    ensures Outside(Used(l), Break(l), hi)
  {
    forall x | x in Used(l) ensures x.addr + BLOCK_SIZE + x.size <= Break(l) { UsedDisjoint(l, x, x); }
  }

  /** What is left of the headers when bytes from lo to hi are cleared. */
  function Overwritten(meta: map<nat, Block>, lo: nat, hi: nat): map<nat, Block>
  {
    map a | a in meta && (a + BLOCK_SIZE <= lo || hi <= a) :: meta[a]
  }

  lemma HeaderSurvives(meta: map<nat, Block>, l: Layout, j: nat, lo: nat, hi: nat)
    requires j < |l| && Header(meta, l, j) && (Addr(l, j) + BLOCK_SIZE <= lo || hi <= Addr(l, j))
    ensures Header(Overwritten(meta, lo, hi), l, j)
  {
  }

  lemma SplitBreak(l: Layout, i: nat, n: nat)
    requires i < |l| && l[i].size >= n + BLOCK_SIZE
    ensures Break(Split(l, i, n, true, true)) == Break(l)
  {
    SplitAddr(l, i, n, true, true);
  }

  predicate Apart(a: nat, lo: nat, hi: nat)
  {
    a + BLOCK_SIZE <= lo || hi <= a
  }

  lemma LinkedOverwrite(meta: map<nat, Block>, l: Layout, lo: nat, hi: nat)
    requires Linked(meta, l) && forall j: nat {:trigger Apart(Addr(l, j), lo, hi)} :: j < |l| ==> Apart(Addr(l, j), lo, hi)
    ensures Linked(Overwritten(meta, lo, hi), l)
  {
    forall j: nat | j < |l| ensures Header(Overwritten(meta, lo, hi), l, j) {
      assert Header(meta, l, j) && Apart(Addr(l, j), lo, hi);
      HeaderSurvives(meta, l, j, lo, hi);
    }
  }

  /** Clearing a payload overwrites no header of the list. */
  lemma LinkedClear(meta: map<nat, Block>, l: Layout, i: nat)
    requires Linked(meta, l) && i < |l|
    ensures Linked(Overwritten(meta, Addr(l, i) + BLOCK_SIZE, Addr(l, i) + BLOCK_SIZE + l[i].size), l)
  {
    hide Linked, Overwritten, Addr;
    var lo, hi := Addr(l, i) + BLOCK_SIZE, Addr(l, i) + BLOCK_SIZE + l[i].size;
    forall j: nat | j < |l| ensures Apart(Addr(l, j), lo, hi) {
      if j < i { AddrMono(l, j, i); } else if i < j { AddrMono(l, i, j); }
    }
    LinkedOverwrite(meta, l, lo, hi);
  }

  // --------------------------------------------------------------- allocator

  /** Is `p` the address of a payload in use? */
  ghost predicate Owned(l: Layout, p: int)
  {
    exists x :: x in Used(l) && x.addr + BLOCK_SIZE == p
  }

  class Allocator {
    var head: Option<nat>
    var meta: map<nat, Block>
    var mem: seq<nat>
    ghost var layout: Layout

    /** The list describes a layout that fills the heap up to the break. */
    ghost predicate Tiled()
      reads this
    {
      && Break(layout) == |mem|
      && head == (if layout == [] then None else Some(0))
      && Linked(meta, layout)
    }

    /** Between calls, besides, no two neighbours are free. */
    ghost predicate Valid()
      reads this
    {
      Tiled() && Coalesced(layout)
    }

    constructor ()
      ensures Valid() && layout == []
    {
      head, meta, mem, layout := None, map[], [], [];
    }

    /** Writes a header, all of whose bytes may change. */
    method StoreHeader(a: nat, b: Block)
      requires a + BLOCK_SIZE <= |mem|
      modifies this`meta, this`mem
      ensures meta == old(meta)[a := b] && |mem| == old(|mem|) && Wrote(old(mem), mem, a, a + BLOCK_SIZE)
    {
      meta := meta[a := b];
      mem := mem[..a] + Zeros(BLOCK_SIZE) + mem[a + BLOCK_SIZE..];
    }

    /** memset to zero, over headers too if there are any. */
    method Clear(a: nat, n: nat)
      requires a + n <= |mem|
      modifies this`meta, this`mem
      ensures meta == Overwritten(old(meta), a, a + n) && |mem| == old(|mem|) && Wrote(old(mem), mem, a, a + n)
    {
      meta := Overwritten(meta, a, a + n);
      mem := mem[..a] + Zeros(n) + mem[a + n..];
    }

    method SetFree(a: nat, free: bool, ghost i: nat)
      requires Tiled() && i < |layout| && a == Addr(layout, i)
      modifies this`meta, this`mem, this`layout
      ensures Tiled() && layout == old(layout)[i := Chunk(old(layout)[i].size, free)]
      ensures |mem| == old(|mem|) && Kept(Used(old(layout)), old(mem), mem)
    {
      LinkedFlag(meta, layout, i, free);
      FlagAddr(layout, i, free);
      HeaderOutside(layout, i);
      AddrMono(layout, i, |layout|);
      StoreHeader(a, meta[a].(free := free));
      layout := layout[i := Chunk(layout[i].size, free)];
    }

    /** Clears the payload of a block that lies in a part of the heap nobody uses. */
    method ClearBlock(b: nat, ghost i: nat, ghost used: set<Allocation>, ghost was: seq<nat>, ghost lo: nat,
            ghost hi: nat)
      requires Tiled() && i < |layout| && b == Addr(layout, i)
      requires Kept(used, was, mem) && |was| <= |mem| && Outside(used, lo, hi) && lo <= b && Addr(layout, i + 1) <= hi
      modifies this`meta, this`mem
      ensures Tiled() && |mem| == old(|mem|) && Kept(used, was, mem)
    {
      assert Header(meta, layout, i);
      LinkedClear(meta, layout, i);
      AddrMono(layout, i, |layout|);
      AddrMono(layout, i, i + 1);
      Clear(b + BLOCK_SIZE, meta[b].size);
      KeptStep(used, was, old(mem), mem, b + BLOCK_SIZE, layout[i].size, lo, hi);
    }

    /** split_block, up to its two memsets */
    method SplitHeaders(b: nat, s: nat, ghost i: nat)
      requires Tiled() && i < |layout| && b == Addr(layout, i) && layout[i].free && layout[i].size >= s + BLOCK_SIZE
      modifies this`meta, this`mem, this`layout
      ensures Tiled() && layout == Split(old(layout), i, s, true, true)
      ensures |mem| == old(|mem|) && Kept(Used(old(layout)), old(mem), mem)
    {
      ghost var used, lo, hi := Used(layout), Addr(layout, i), Addr(layout, i + 1);
      assert Header(meta, layout, i);
      FreeOutside(layout, i);
      AddrMono(layout, i, |layout|);
      var third := meta[b].next;
      var ptr := meta[b].ptr + s + BLOCK_SIZE;
      var sb := Block(meta[b].size - s - BLOCK_SIZE, meta[b].next, Some(meta[b].ptr), true, ptr);
      StoreHeader(b, meta[b].(size := s, next := Some(ptr)));
      KeptStep(used, old(mem), old(mem), mem, b, BLOCK_SIZE, lo, hi);
      if third.Some? {
        assert Header(old(meta), layout, i + 1);
        AddrMono(layout, i, i + 1);
        FixPrev(third.value, ptr, i);
      }
      ghost var mem1 := mem;
      StoreHeader(ptr, sb);
      KeptStep(used, old(mem), mem1, mem, ptr, BLOCK_SIZE, lo, hi);
      assert meta == Halved(old(meta), layout, i, s);
      SplitBreak(layout, i, s);
      LinkedSplit(old(meta), layout, i, s);
      layout := Split(layout, i, s, true, true);
    }

    /** third_block->prev = ptr, while the list is being rewired before it */
    method FixPrev(third: nat, ptr: nat, ghost i: nat)
      requires Break(layout) == |mem| && i + 1 < |layout| && third == Addr(layout, i + 1) && third in meta
      modifies this`meta, this`mem
      ensures meta == old(meta)[third := old(meta)[third].(prev := Some(ptr))] && |mem| == old(|mem|)
      ensures Kept(Used(layout), old(mem), mem)
      ensures forall m: seq<nat> {:trigger Kept(Used(layout), m, mem)} ::
                |m| <= |mem| && Kept(Used(layout), m, old(mem)) ==> Kept(Used(layout), m, mem)
    {
      HeaderOutside(layout, i + 1);
      AddrMono(layout, i + 1, |layout|);
      StoreHeader(third, meta[third].(prev := Some(ptr)));
    }

    /** split_block */
    method SplitBlock(b: nat, s: nat, ghost i: nat)
      requires Tiled() && i < |layout| && b == Addr(layout, i) && layout[i].free && layout[i].size >= s + BLOCK_SIZE
      modifies this`meta, this`mem, this`layout
      ensures Tiled() && layout == Split(old(layout), i, s, true, true)
      ensures |mem| == old(|mem|) && Kept(Used(old(layout)), old(mem), mem)
    {
      ghost var used, lo, hi := Used(layout), Addr(layout, i), Addr(layout, i + 1);
      FreeOutside(layout, i);
      SplitAddr(layout, i, s, true, true);
      SplitHeaders(b, s, i);
      assert Header(meta, layout, i) && Header(meta, layout, i + 1);
      ClearBlock(meta[b].next.value, i + 1, used, old(mem), lo, hi);
      ClearBlock(b, i, used, old(mem), lo, hi);
    }

    /** extend_heap; the break moves by the request and a header. */
    method ExtendHeap(last: Option<nat>, s: nat) returns (p: nat)
      requires Tiled() && last == if layout == [] then None else Some(Addr(layout, |layout| - 1))
      modifies this
      ensures Tiled() && layout == old(layout) + [Chunk(s, false)] && p == Addr(layout, |layout| - 1)
      ensures |mem| == old(|mem|) + BLOCK_SIZE + s && Kept(Used(old(layout)), old(mem), mem)
    {
      p := |mem|;
      ghost var used, hi := Used(layout), p + BLOCK_SIZE + s;
      LinkedExtend(meta, layout, s);
      BreakOutside(layout, hi);
      mem := mem + Zeros(s + BLOCK_SIZE);
      ghost var mem1 := mem;
      if last.Some? {
        HeaderOutside(layout, |layout| - 1);
        assert Header(meta, layout, |layout| - 1);
        AddrMono(layout, |layout| - 1, |layout|);
        StoreHeader(last.value, meta[last.value].(next := Some(p)));
        KeptStep(used, old(mem), mem1, mem, last.value, BLOCK_SIZE, last.value, last.value + BLOCK_SIZE);
      } else {
        head := Some(p);
      }
      ghost var mem2 := mem;
      StoreHeader(p, Block(s, None, last, false, p));
      KeptStep(used, old(mem), mem2, mem, p, BLOCK_SIZE, p, hi);
      AddrPrefix(layout, layout + [Chunk(s, false)], |layout|);
      layout := layout + [Chunk(s, false)];
      ClearBlock(p, |layout| - 1, used, old(mem), p, hi);
    }

    /** fusion up to its memset, for a block whose next is free */
    method FuseHeaders(b: nat, ghost i: nat)
      requires Tiled() && i + 1 < |layout| && b == Addr(layout, i) && layout[i].free && layout[i + 1].free
      modifies this`meta, this`mem, this`layout
      ensures Tiled() && layout == Fuse(old(layout), i)
      ensures |mem| == old(|mem|) && Kept(Used(old(layout)), old(mem), mem)
    {
      assert Header(meta, layout, i) && Header(meta, layout, i + 1);
      LinkedFuse(meta, layout, i);
      FuseUsed(layout, i);
      HeaderOutside(layout, i);
      AddrMono(layout, i, |layout|);
      FuseAddr(layout, i);
      var next := meta[meta[b].next.value];
      StoreHeader(b, meta[b].(size := meta[b].size + next.size + BLOCK_SIZE, next := next.next));
      if next.next.Some? {
        HeaderOutside(layout, i + 2);
        AddrMono(layout, i + 2, |layout|);
        AddrMono(layout, i, i + 2);
        assert Header(old(meta), layout, i + 2);
        StoreHeader(next.next.value, meta[next.next.value].(prev := Some(b)));
      }
      layout := Fuse(layout, i);
    }

    /** fusion: absorbs the next block if there is one and it is free. */
    method Fusion(b: nat, ghost i: nat) returns (r: nat)
      requires Tiled() && i < |layout| && b == Addr(layout, i) && layout[i].free
      modifies this`meta, this`mem, this`layout
      ensures Tiled() && layout == FuseIfFree(old(layout), i) && r == b && b == Addr(layout, i) && layout[i].free
      ensures |mem| == old(|mem|) && Used(layout) == Used(old(layout)) && Kept(Used(layout), old(mem), mem)
    {
      assert Header(meta, layout, i);
      r := meta[b].ptr;
      if meta[b].next.Some? {
        assert Header(meta, layout, i + 1);
        if meta[meta[b].next.value].free {
          FuseUsed(layout, i);
          FuseAddr(layout, i);
          FuseHeaders(r, i);
          assert Header(meta, layout, i);
          FreeOutside(layout, i);
          AddrMono(layout, i, |layout|);
          LinkedClear(meta, layout, i);
          Clear(r + BLOCK_SIZE, meta[r].size);
        }
      }
    }

    /** The block at hand in a walk along the list. */
    ghost predicate Walking(iter: Option<nat>, i: nat)
      reads this
    {
      i <= |layout| && iter == if i < |layout| then Some(Addr(layout, i)) else None
    }

    lemma WalkStep(i: nat)
      requires Tiled() && i < |layout|
      ensures Header(meta, layout, i) && Walking(meta[Addr(layout, i)].next, i + 1)
    {
    }

    /** mm_malloc: the first free block with room for the request and a header, or else more heap. */
    method Malloc(size: nat) returns (p: nat)
      requires Valid()
      modifies this
      ensures Valid() && layout == Allocate(old(layout), size)
      ensures var i := FirstFit(old(layout), size);
              i < |layout| && size <= layout[i].size && p == Addr(layout, i) + BLOCK_SIZE
              && Place(layout, i) !in Used(old(layout)) && Used(layout) == Used(old(layout)) + {Place(layout, i)}
      ensures Kept(Used(old(layout)), old(mem), mem) && |mem| >= old(|mem|)
    {
      AllocateMeans(layout, size);
      AllocateCoalesced(layout, size);
      if head.None? {
        var sp := ExtendHeap(None, size);
        return sp + BLOCK_SIZE;
      }
      var last := head.value;
      var iter := head;
      ghost var i := 0;
      while iter.Some?
        invariant Valid() && layout == old(layout) && mem == old(mem)
        invariant Walking(iter, i) && last == Addr(layout, if i == 0 then 0 else i - 1)
        invariant forall j :: 0 <= j < i ==> !(layout[j].free && layout[j].size >= size + BLOCK_SIZE)
        decreases |layout| - i
      {
        WalkStep(i);
        last := iter.value;
        var b := meta[iter.value];
        if b.free && b.size >= size + BLOCK_SIZE {
          FirstFitIs(layout, size, i);
          p := TakeBlock(iter.value, size, i);
          return;
        }
        iter := b.next;
        i := i + 1;
      }
      FirstFitIs(layout, size, i);
      var sp := ExtendHeap(Some(last), size);
      return sp + BLOCK_SIZE;
    }

    /** The two ways mm_malloc uses a block it has found. */
    method TakeBlock(iter: nat, size: nat, ghost i: nat) returns (p: nat)
      requires Valid() && i < |layout| && iter == Addr(layout, i)
      requires layout[i].free && layout[i].size >= size + BLOCK_SIZE && FirstFit(layout, size) == i
      modifies this`meta, this`mem, this`layout
      ensures Tiled() && layout == Allocate(old(layout), size) && p == iter + BLOCK_SIZE && iter == Addr(layout, i)
      ensures |mem| == old(|mem|) && Kept(Used(old(layout)), old(mem), mem)
    {
      assert Header(meta, layout, i);
      if meta[iter].size > size + BLOCK_SIZE {
        SplitAddr(layout, i, size, true, true);
        ghost var l := layout;
        SplitBlock(iter, size, i);
        ghost var mem1 := mem;
        assert Header(meta, layout, i);
        SplitUsed(l, i, size);
        SetFree(meta[iter].next.value, true, i + 1);
        assert layout == Split(l, i, size, true, true);
        KeptTrans(Used(l), old(mem), mem1, mem);
        mem1 := mem;
        SetFree(iter, false, i);
        KeptTrans(Used(l), old(mem), mem1, mem);
        FlagAddr(Split(l, i, size, true, true), i, false);
        assert layout == Split(l, i, size, false, true);
      } else {
        FlagAddr(layout, i, false);
        SetFree(iter, false, i);
      }
      return iter + BLOCK_SIZE;
    }

    /** mm_free; false where the original reports a pointer it does not own and exits. */
    method Free(p: int) returns (ok: bool)
      requires Valid()
      modifies this`meta, this`mem, this`layout
      ensures Valid() && |mem| == old(|mem|)
      ensures ok <==> Owned(old(layout), p)
      ensures ok ==> Used(layout) == set x | x in Used(old(layout)) && x.addr + BLOCK_SIZE != p
      ensures !ok ==> layout == old(layout) && meta == old(meta)
      ensures Kept(Used(layout), old(mem), mem)
    {
      var sbp := p - BLOCK_SIZE;
      var iter := head;
      ghost var i := 0;
      while iter.Some? && iter.value != sbp
        invariant Valid() && layout == old(layout) && meta == old(meta) && mem == old(mem)
        invariant Walking(iter, i) && forall j :: 0 <= j < i ==> Addr(layout, j) != sbp
        decreases |layout| - i
      {
        WalkStep(i);
        iter := meta[iter.value].next;
        i := i + 1;
      }
      if iter.None? {
        if Owned(layout, p) { NotOwned(layout, p); }
        return false;
      }
      assert Header(meta, layout, i);
      OwnedAt(layout, i);
      if meta[iter.value].free {
        return false;
      }
      ReleaseMeans(layout, i);
      ReleaseBlock(iter.value, i);
      return true;
    }

    /** What mm_free does to the block it has found. */
    method ReleaseBlock(sbp: nat, ghost i: nat)
      requires Valid() && i < |layout| && sbp == Addr(layout, i) && !layout[i].free
      modifies this`meta, this`mem, this`layout
      ensures Tiled() && layout == Release(old(layout), i) && |mem| == old(|mem|)
      ensures Kept(Used(layout), old(mem), mem)
    {
      FlagUsed(layout, i);
      FlagAddr(layout, i, true);
      SetFree(sbp, true, i);
      ghost var mem1 := mem;
      assert Header(meta, layout, i);
      if meta[sbp].prev.Some? {
        var prev := meta[sbp].prev.value;
        assert Header(meta, layout, i - 1);
        if meta[prev].free {
          var r := Fusion(prev, i - 1);
          ghost var mem2 := mem;
          r := Fusion(r, i - 1);
          KeptTrans(Used(layout), mem1, mem2, mem);
        } else {
          var _ := Fusion(sbp, i);
        }
      } else {
        var _ := Fusion(sbp, i);
      }
      KeptTrans(Used(layout), old(mem), mem1, mem);
    }

    /** memcpy */
    method Copy(q: nat, p: nat, n: nat)
      requires p + n <= |mem| && q + n <= |mem|
      modifies this`mem
      ensures |mem| == old(|mem|) && mem[q..q + n] == old(mem[p..p + n]) && Wrote(old(mem), mem, q, q + n)
    {
      mem := mem[..q] + mem[p..p + n] + mem[q + n..];
    }

    /** The first half of mm_realloc: a new block `y` with the contents of the old one, `x`, which stays for now. */
    method Duplicate(p: nat, size: nat, ghost x: Allocation) returns (q: nat, ghost y: Allocation)
      requires Valid() && x in Used(layout) && x.addr + BLOCK_SIZE == p && x.size <= size
      modifies this
      ensures Valid() && |mem| >= old(|mem|) && p + x.size <= old(|mem|) && q + x.size <= |mem|
      ensures y.addr + BLOCK_SIZE == q && y.size >= size && y !in Used(old(layout)) && Used(layout) == Used(old(layout)) + {y}
      ensures mem[q..q + x.size] == old(mem[p..p + x.size]) && Kept(Used(old(layout)), old(mem), mem)
    {
      hide Used, Addr, FirstFit, Allocate, Break, Coalesced;
      ghost var used := Used(layout);
      UsedDisjoint(layout, x, x);
      q := Malloc(size);
      y := Place(layout, FirstFit(old(layout), size));
      UsedDisjoint(layout, x, y);
      UsedDisjoint(layout, y, y);
      ghost var j := UsedIndex(layout, x);
      assert Header(meta, layout, j);
      var n := meta[p - BLOCK_SIZE].size;
      ghost var mem1 := mem;
      KeptRange(used, old(mem), mem, x, n);
      Copy(q, p, n);
      NewOutside(layout, used, y);
      KeptStep(used, old(mem), mem1, mem, q, n, y.addr + BLOCK_SIZE, y.addr + BLOCK_SIZE + y.size);
    }

    /** mm_realloc to a size that is not below that of the old block `x`: the contents move along, to block `y`. */
    method Realloc(p: nat, size: nat, ghost x: Allocation) returns (q: nat, ghost y: Allocation)
      requires Valid() && x in Used(layout) && x.addr + BLOCK_SIZE == p && x.size <= size
      modifies this
      ensures Valid() && q + x.size <= |mem| && p + x.size <= old(|mem|)
      ensures mem[q..q + x.size] == old(mem[p..p + x.size])
      ensures y.addr + BLOCK_SIZE == q && y.size >= size && y !in Used(old(layout))
      ensures Used(layout) == Used(old(layout)) - {x} + {y}
      ensures Kept(Used(old(layout)) - {x}, old(mem), mem)
    {
      ghost var used := Used(layout);
      q, y := Duplicate(p, size, x);
      ghost var mem2, l := mem, layout;
      UsedDisjoint(l, y, y);
      OwnersDiffer(l, x);
      var ok := Free(p);
      assert Used(layout) == Used(l) - {x};
      KeptSub(used - {x}, used, old(mem), mem2);
      KeptSub(used - {x}, Used(layout), mem2, mem);
      KeptTrans(used - {x}, old(mem), mem2, mem);
      KeptRange(Used(layout), mem2, mem, y, x.size);
    }
  }

  lemma KeptRange(used: set<Allocation>, mem: seq<nat>, mem1: seq<nat>, x: Allocation, n: nat)
    requires Kept(used, mem, mem1) && x in used && n <= x.size
    requires x.addr + BLOCK_SIZE + x.size <= |mem| && x.addr + BLOCK_SIZE + x.size <= |mem1|
    ensures var p := x.addr + BLOCK_SIZE; mem1[p..p + n] == mem[p..p + n]
  {
  }

  /** A new allocation is outside all earlier ones. */
  lemma NewOutside(l: Layout, used: set<Allocation>, y: Allocation)
    requires Used(l) == used + {y} && y !in used
    ensures Outside(used, y.addr + BLOCK_SIZE, y.addr + BLOCK_SIZE + y.size)
  {
    forall x | x in used
      ensures x.addr + BLOCK_SIZE + x.size <= y.addr + BLOCK_SIZE || y.addr + BLOCK_SIZE + y.size <= x.addr + BLOCK_SIZE
    {
      UsedDisjoint(l, x, y);
    }
  }

  lemma OwnersDiffer(l: Layout, x: Allocation)
    requires x in Used(l)
    ensures forall z :: z in Used(l) && z.addr == x.addr ==> z == x
  {
    forall z | z in Used(l) && z.addr == x.addr ensures z == x { UsedDisjoint(l, x, z); }
  }

  lemma KeptSub(some: set<Allocation>, used: set<Allocation>, mem: seq<nat>, mem1: seq<nat>)
    requires some <= used && Kept(used, mem, mem1)
    ensures Kept(some, mem, mem1)
  {
  }

  lemma KeptTrans(used: set<Allocation>, mem: seq<nat>, mem1: seq<nat>, mem2: seq<nat>)
    requires Kept(used, mem, mem1) && |mem| <= |mem1|
    requires Kept(used, mem1, mem2)
    ensures Kept(used, mem, mem2)
  {
  }

  /** Splitting a free block changes nobody's allocation. */
  lemma SplitUsed(l: Layout, i: nat, n: nat)
    requires i < |l| && l[i].free && l[i].size >= n + BLOCK_SIZE
    ensures Used(Split(l, i, n, true, true)) == Used(l)
  {
    var m := Split(l, i, n, true, true);
    SplitAddr(l, i, n, true, true);
    FuseUsed(m, i);
    assert Fuse(m, i) == l;
  }

  lemma OwnedAt(l: Layout, i: nat)
    requires i < |l|
    ensures Owned(l, Addr(l, i) + BLOCK_SIZE) <==> !l[i].free
    ensures forall x :: x in Used(l) && x.addr == Addr(l, i) ==> x == Place(l, i)
  {
    hide Addr, Used;
    forall x | x in Used(l) && x.addr == Addr(l, i) ensures x == Place(l, i) && !l[i].free { StartsAt(l, x, i); }
    if !l[i].free {
      UsedAt(l, i);
    } else {
      forall x | x in Used(l) ensures x.addr + BLOCK_SIZE != Addr(l, i) + BLOCK_SIZE { UsedOutside(l, x, i); }
    }
  }

  lemma NotOwned(l: Layout, p: int)
    requires Owned(l, p)
    ensures exists j :: 0 <= j < |l| && Addr(l, j) + BLOCK_SIZE == p
  {
    var x :| x in Used(l) && x.addr + BLOCK_SIZE == p;
    var j := UsedIndex(l, x);
  }
}
