/**
  Copying between vectors of buffers: two cursors walk over lists of memory and file descriptor
  buffers.  What a copy does is said without the lists, by transferring bytes one by one from the
  flattened source to the places that the flattened destination stands for.
 */
module BufCopy {
  import opened Wrappers

  type Byte = n: nat | n < 256

  /** struct fuse_buf: memory at an address, or a descriptor. */
  datatype Buf =
    | Mem(addr: nat, size: nat)
    | Fd(fd: nat, size: nat, seek: bool, pos: nat, retry: bool)

  /** Where a byte goes: an address, or a file, at a position or wherever the file is. */
  datatype Slot = MemSlot(addr: nat) | FdSlot(fd: nat, at: Option<nat>)

  datatype Put = Put(slot: Slot, byte: Byte)

  /** Memory, and everything written to files, in order. */
  datatype World = World(mem: seq<Byte>, log: seq<Put>)

  function SlotOf(b: Buf, k: nat): Slot
  {
    if b.Mem? then MemSlot(b.addr + k) else FdSlot(b.fd, if b.seek then Some(b.pos + k) else None)
  }

  function Store(w: World, slot: Slot, byte: Byte): (v: World)
    ensures |v.mem| == |w.mem|
  {
    if slot.FdSlot? then w.(log := w.log + [Put(slot, byte)])
    else if slot.addr < |w.mem| then w.(mem := w.mem[slot.addr := byte])
    else w
  }

  // ------------------------------------------------------------- one buffer

  /** Sends `n` bytes of `mem` from `at` on to buffer `b`, from `off` on. */
  function Send(w: World, b: Buf, off: nat, mem: seq<Byte>, at: nat, n: nat): World
    requires at + n <= |mem|
  {
    if n == 0 then w else Store(Send(w, b, off, mem, at, n - 1), SlotOf(b, off + n - 1), mem[at + n - 1])
  }

  lemma {:induction false} SendMore(w: World, b: Buf, off: nat, mem: seq<Byte>, at: nat, n: nat, more: nat)
    requires at + n + more <= |mem|
    ensures Send(Send(w, b, off, mem, at, n), b, off + n, mem, at + n, more) == Send(w, b, off, mem, at, n + more)
  {
    if more > 0 { SendMore(w, b, off, mem, at, n, more - 1); }
  }

  /** Sending to memory is copying a block. */
  lemma {:induction false} SendBlock(w: World, b: Buf, off: nat, mem: seq<Byte>, start: nat, n: nat)
    requires start + n <= |mem| && b.Mem? && b.addr + off + n <= |w.mem|
    ensures var v := Send(w, b, off, mem, start, n);
            && v.log == w.log && |v.mem| == |w.mem|
            && forall k :: 0 <= k < |w.mem| ==>
                 v.mem[k] == if b.addr + off <= k < b.addr + off + n then mem[start + (k - (b.addr + off))] else w.mem[k]
  {
    if n > 0 { SendBlock(w, b, off, mem, start, n - 1); }
  }

  // ---------------------------------------------------------------- vectors

  /** Where buffer `i` begins in the vector as a whole. */
  function Start(bufs: seq<Buf>, i: nat): nat
    requires i <= |bufs|
  {
    if i == 0 then 0 else Start(bufs, i - 1) + bufs[i - 1].size
  }

  function Total(bufs: seq<Buf>): nat { Start(bufs, |bufs|) }

  /** Where a cursor stands in the vector as a whole. */
  function Position(bufs: seq<Buf>, idx: nat, off: nat): nat
    requires idx <= |bufs|
  {
    if idx == |bufs| then Total(bufs) else Start(bufs, idx) + off
  }

  lemma {:induction false} StartMono(bufs: seq<Buf>, i: nat, j: nat)
    requires i < j <= |bufs|
    ensures Start(bufs, i) + bufs[i].size <= Start(bufs, j)
  {
    if i + 1 < j { StartMono(bufs, i, j - 1); }
  }

  /** Place `x` of the flattened destination is place `k` of buffer `buf`. */
  ghost predicate SlotIs(s: seq<Slot>, x: nat, buf: Buf, k: nat)
  {
    x < |s| && s[x] == SlotOf(buf, k)
  }

  /** Byte `x` of the flattened source is the one at address `y`. */
  ghost predicate ByteIs(b: seq<Byte>, x: nat, mem: seq<Byte>, y: nat)
  {
    x < |b| && y < |mem| && b[x] == mem[y]
  }

  /** The flattened destination: `s` has, for every buffer, its places in order. */
  ghost predicate SlotsOf(s: seq<Slot>, bufs: seq<Buf>)
  {
    |s| == Total(bufs)
    && forall i: nat, k: nat, x: nat {:trigger SlotIs(s, x, bufs[i], k)} ::
         i < |bufs| && k < bufs[i].size && x == Start(bufs, i) + k ==> SlotIs(s, x, bufs[i], k)
  }

  /** The flattened source: `b` has, for every buffer, its contents in order. */
  ghost predicate BytesOf(b: seq<Byte>, bufs: seq<Buf>, mem: seq<Byte>)
  {
    |b| == Total(bufs)
    && forall i: nat, k: nat, x: nat, y: nat {:trigger bufs[i], Within(bufs, i, k), ByteIs(b, x, mem, y)} ::
         i < |bufs| && bufs[i].Mem? && Within(bufs, i, k) && x == Start(bufs, i) + k && y == bufs[i].addr + k ==> ByteIs(b, x, mem, y)
  }

  predicate Within(bufs: seq<Buf>, i: nat, k: nat)
  {
    i < |bufs| && k < bufs[i].size
  }

  predicate InMemory(bufs: seq<Buf>, n: nat)
  {
    forall i :: 0 <= i < |bufs| ==> bufs[i].Mem? ==> bufs[i].addr + bufs[i].size <= n
  }

  predicate AllMem(bufs: seq<Buf>)
  {
    forall i :: 0 <= i < |bufs| ==> bufs[i].Mem?
  }

  /** Transfers `n` bytes of `b`, from `t` on, to the slots of `s`, from `u` on. */
  function Transfer(w: World, s: seq<Slot>, u: nat, b: seq<Byte>, t: nat, n: nat): (v: World)
    requires u + n <= |s| && t + n <= |b|
    ensures |v.mem| == |w.mem|
  {
    if n == 0 then w else Store(Transfer(w, s, u, b, t, n - 1), s[u + n - 1], b[t + n - 1])
  }

  lemma {:induction false} TransferMore(w: World, s: seq<Slot>, u: nat, b: seq<Byte>, t: nat, n: nat, more: nat)
    requires u + n + more <= |s| && t + n + more <= |b|
    ensures Transfer(Transfer(w, s, u, b, t, n), s, u + n, b, t + n, more) == Transfer(w, s, u, b, t, n + more)
  {
    if more > 0 { TransferMore(w, s, u, b, t, n, more - 1); }
  }

  /** Sending to one buffer is a transfer, if the slots and the bytes are the ones. */
  lemma {:induction false} SendIsTransfer(w: World, buf: Buf, off: nat, mem: seq<Byte>, at: nat, n: nat,
                                          s: seq<Slot>, u: nat, b: seq<Byte>, t: nat)
    requires at + n <= |mem| && u + n <= |s| && t + n <= |b|
    requires forall x: nat, k: nat {:trigger SlotIs(s, x, buf, k)} :: off <= k < off + n && x - u == k - off ==> SlotIs(s, x, buf, k)
    requires forall x: nat, y: nat {:trigger ByteIs(b, x, mem, y)} :: t <= x < t + n && x - t == y - at ==> ByteIs(b, x, mem, y)
    ensures Send(w, buf, off, mem, at, n) == Transfer(w, s, u, b, t, n)
  {
    if n > 0 {
      SendIsTransfer(w, buf, off, mem, at, n - 1, s, u, b, t);
      assert SlotIs(s, u + n - 1, buf, off + n - 1) && ByteIs(b, t + n - 1, mem, at + n - 1);
    }
  }

  predicate Overlap(a: Buf, b: Buf)
  {
    a.Mem? && b.Mem? && a.addr < b.addr + b.size && b.addr < a.addr + a.size
  }

  /** No source buffer overlaps a destination buffer. */
  predicate Disjoint(src: seq<Buf>, dst: seq<Buf>)
  {
    forall i, j {:trigger Overlap(src[i], dst[j])} :: 0 <= i < |src| && 0 <= j < |dst| ==> !Overlap(src[i], dst[j])
  }

  /** Sending to a destination buffer does not change the source. */
  lemma {:induction false} SourceStays(b: seq<Byte>, src: seq<Buf>, dst: seq<Buf>, j: nat, w: World, off: nat,
          mem: seq<Byte>, at: nat, n: nat)
    requires BytesOf(b, src, w.mem) && InMemory(src, |w.mem|) && Disjoint(src, dst) && InMemory(dst, |w.mem|)
    requires j < |dst| && off + n <= dst[j].size && at + n <= |mem|
    ensures BytesOf(b, src, Send(w, dst[j], off, mem, at, n).mem)
  {
    var v := Send(w, dst[j], off, mem, at, n);
    if dst[j].Mem? { SendBlock(w, dst[j], off, mem, at, n); } else { SendToFile(w, dst[j], off, mem, at, n); }
    forall i: nat, k: nat, x: nat, y: nat
      | i < |src| && src[i].Mem? && Within(src, i, k) && x == Start(src, i) + k && y == src[i].addr + k
      ensures ByteIs(b, x, v.mem, y)
    {
      assert ByteIs(b, x, w.mem, y);
      assert !Overlap(src[i], dst[j]);
    }
  }

  lemma {:induction false} SendToFile(w: World, buf: Buf, off: nat, mem: seq<Byte>, at: nat, n: nat)
    requires buf.Fd? && at + n <= |mem|
    ensures Send(w, buf, off, mem, at, n).mem == w.mem
  {
    if n > 0 { SendToFile(w, buf, off, mem, at, n - 1); }
  }

  /** One round of the copy continues the transfer where the rounds before left off. */
  lemma {:induction false} RoundDone(w: World, v: World, s: seq<Slot>, u: nat, b: seq<Byte>, t: nat, n: nat,
                                     dst: seq<Buf>, j: nat, p: nat, src: seq<Buf>, i: nat, o: nat, res: nat)
    requires SlotsOf(s, dst) && BytesOf(b, src, v.mem) && InMemory(src, |v.mem|)
    requires j < |dst| && p + res <= dst[j].size && i < |src| && o + res <= src[i].size && src[i].Mem?
    requires Start(dst, j) + p == u + n && Start(src, i) + o == t + n && u + n <= |s| && t + n <= |b|
    requires v == Transfer(w, s, u, b, t, n)
    ensures u + n + res <= |s| && t + n + res <= |b| && src[i].addr + o + res <= |v.mem|
    ensures Send(v, dst[j], p, v.mem, src[i].addr + o, res) == Transfer(w, s, u, b, t, n + res)
  {
    StartMono(dst, j, |dst|);
    StartMono(src, i, |src|);
    var at := src[i].addr + o;
    forall x: nat, k: nat | p <= k < p + res && x - (u + n) == k - p ensures SlotIs(s, x, dst[j], k) {
      assert x == Start(dst, j) + k;
    }
    forall x: nat, y: nat | t + n <= x < t + n + res && x - (t + n) == y - at ensures ByteIs(b, x, v.mem, y) {
      assert Within(src, i, y - src[i].addr) && x == Start(src, i) + (y - src[i].addr);
    }
    SendIsTransfer(v, dst[j], p, v.mem, at, res, s, u + n, b, t + n);
    TransferMore(w, s, u, b, t, n, res);
  }

  lemma {:induction false} RoundKeeps(w: World, v: World, s: seq<Slot>, u: nat, b: seq<Byte>, t: nat, n: nat,
                                      dst: seq<Buf>, j: nat, p: nat, src: seq<Buf>, i: nat, o: nat, res: nat)
    requires SlotsOf(s, dst) && BytesOf(b, src, v.mem) && InMemory(src, |v.mem|) && InMemory(dst, |v.mem|) && Disjoint(src, dst)
    requires j < |dst| && p + res <= dst[j].size && i < |src| && o + res <= src[i].size && src[i].Mem?
    requires Position(dst, j, p) == u + n <= |s| && Position(src, i, o) == t + n <= |b|
    requires v == Transfer(w, s, u, b, t, n)
    ensures u + n + res <= |s| && t + n + res <= |b| && src[i].addr + o + res <= |v.mem|
    ensures var v' := Send(v, dst[j], p, v.mem, src[i].addr + o, res);
            v' == Transfer(w, s, u, b, t, n + res) && BytesOf(b, src, v'.mem)
  {
    RoundDone(w, v, s, u, b, t, n, dst, j, p, src, i, o, res);
    SourceStays(b, src, dst, j, v, p, v.mem, src[i].addr + o, res);
  }

  /** The largest size_t, as a size that is not known. */
  const SIZE_MAX: nat := 0xffff_ffff_ffff_ffff

  /** Buffer `k` is the last one whose size is SIZE_MAX. */
  ghost predicate LastUnsized(bufs: seq<Buf>, k: nat)
  {
    k < |bufs| && bufs[k].size == SIZE_MAX && forall i :: k < i < |bufs| ==> bufs[i].size != SIZE_MAX
  }

  // ------------------------------------------------- where the destination cursor stops

  /** The last place before `x` where one of the first `k` buffers begins. */
  function LastStart(bufs: seq<Buf>, k: nat, x: int): nat
    requires k <= |bufs|
  {
    if k == 0 then 0 else if Start(bufs, k - 1) < x then Start(bufs, k - 1) else LastStart(bufs, k - 1, x)
  }

  lemma {:induction false} LastStartIs(bufs: seq<Buf>, k: nat, x: int, j: nat)
    requires j < k <= |bufs| && Start(bufs, j) < x <= Start(bufs, j) + bufs[j].size
    ensures LastStart(bufs, k, x) == Start(bufs, j)
  {
    if j < k - 1 {
      StartMono(bufs, j, k - 1);
      LastStartIs(bufs, k - 1, x, j);
    }
  }

  lemma {:induction false} LastStartBefore(bufs: seq<Buf>, k: nat, x: int)
    requires k <= |bufs| && x > 0
    ensures LastStart(bufs, k, x) < x
  {
    if k > 0 && Start(bufs, k - 1) >= x { LastStartBefore(bufs, k - 1, x); }
  }

  function Max(a: int, b: int): int { if a < b then b else a }

  /**
    Where, in the destination, the last piece of a copy of `r` bytes begins: at the last start of a
    buffer, on either side, that is before the end of the copy, or where the copy itself began.
  */
  function LastPiece(dst: seq<Buf>, u: nat, src: seq<Buf>, t: nat, r: nat): int
  {
    Max(u, Max(LastStart(dst, |dst|, u + r), u + LastStart(src, |src|, t + r) - t))
  }

  /** A copy took everything the source had left, and its last buffer had something. */
  predicate UsedUp(src: seq<Buf>, t: nat, r: int)
  {
    r > 0 && t + r == Total(src) && src != [] && src[|src| - 1].size > 0
  }

  /** The last piece is not empty, so a cursor left in front of it has not moved by `r`. */
  lemma LastPieceShort(dst: seq<Buf>, u: nat, src: seq<Buf>, t: nat, r: nat)
    requires r > 0
    ensures u <= LastPiece(dst, u, src, t, r) < u + r
  {
    LastStartBefore(dst, |dst|, u + r);
    LastStartBefore(src, |src|, t + r);
  }

  /** Both current buffers have been in use since place `n` of the copy, and one of them, or the copy, began there. */
  lemma LastPieceIs(dst: seq<Buf>, u: nat, src: seq<Buf>, t: nat, n: nat, j: nat, p: nat, o: nat, res: nat)
    requires j < |dst| && src != [] && res > 0 && o + res == src[|src| - 1].size && p + res <= dst[j].size
    requires Start(dst, j) + p == u + n && Start(src, |src| - 1) + o == t + n && (n == 0 || p == 0 || o == 0)
    ensures UsedUp(src, t, n + res) && LastPiece(dst, u, src, t, n + res) == u + n
  {
    LastStartIs(dst, |dst|, u + n + res, j);
    LastStartIs(src, |src|, t + n + res, |src| - 1);
  }

  /** Where the destination cursor stops: it is not moved over the last piece of a source that is used up. */
  function Stop(dst: seq<Buf>, u: nat, src: seq<Buf>, t: nat, r: nat): int
  {
    if UsedUp(src, t, r) then LastPiece(dst, u, src, t, r) else u + r
  }

  /** A cursor has not been left at the end of a buffer that has something in it. */
  predicate Inside(bufs: seq<Buf>, idx: nat, off: nat)
  {
    idx < |bufs| && (off == 0 || off < bufs[idx].size)
  }

  /** As long as the source cursor is inside, the source is not used up. */
  lemma StopsAfter(dst: seq<Buf>, u: nat, src: seq<Buf>, t: nat, n: nat, i: nat, o: nat)
    requires n == 0 || (Inside(src, i, o) && Position(src, i, o) == t + n)
    ensures Stop(dst, u, src, t, n) == u + n
  {
    if UsedUp(src, t, n) {
      StartMono(src, i, |src|);
      if i < |src| - 1 { StartMono(src, i, |src| - 1); }
    }
  }

  /** A round that uses up the source is the last piece. */
  lemma StopsBefore(dst: seq<Buf>, u: nat, src: seq<Buf>, t: nat, n: nat, j: nat, p: nat, o: nat, res: nat)
    requires j < |dst| && src != [] && o + res == src[|src| - 1].size && p + res <= dst[j].size
    requires Start(dst, j) + p == u + n && Start(src, |src| - 1) + o == t + n
    requires (n == 0 || Inside(src, |src| - 1, o)) && (n == 0 || p == 0 || o == 0)
    ensures Stop(dst, u, src, t, n + res) == u + n
  {
    if res > 0 { LastPieceIs(dst, u, src, t, n, j, p, o, res); }
  }

  /** struct fuse_bufvec */
  class BufVec {
    const buf: seq<Buf>
    var idx: nat
    var off: nat

    ghost predicate Valid()
      reads this
    {
      idx <= |buf| && (idx < |buf| ==> off <= buf[idx].size)
    }

    ghost function At(): nat
      requires Valid()
      reads this
    {
      Position(buf, idx, off)
    }

    constructor (buf: seq<Buf>, idx: nat, off: nat)
      requires idx <= |buf| && (idx < |buf| ==> off <= buf[idx].size)
      ensures this.buf == buf && this.idx == idx && this.off == off && Valid()
    {
      this.buf, this.idx, this.off := buf, idx, off;
    }

    /** fuse_bufvec_advance; false when the last buffer is used up. */
    method Advance(len: nat) returns (more: bool)
      requires Valid() && idx < |buf| && off + len <= buf[idx].size
      modifies this
      ensures Valid() && At() == old(At()) + len && (more <==> idx < |buf|)
      ensures idx == old(idx) + if old(off) + len == buf[old(idx)].size then 1 else 0
      ensures more ==> off == if idx > old(idx) then 0 else old(off) + len
    {
      off := off + len;
      if off == buf[idx].size {
        idx := idx + 1;
        if idx == |buf| {
          return false;
        }
        off := 0;
      }
      return true;
    }

    /** fuse_buf_size; the size SIZE_MAX stands for no size in particular, and whatever came before it is forgotten. */
    method Size() returns (size: nat)
      ensures forall k: nat :: LastUnsized(buf, k) ==> size as int == SIZE_MAX + (Total(buf) - Start(buf, k + 1))
      ensures (forall i :: 0 <= i < |buf| ==> buf[i].size != SIZE_MAX) ==> size == Total(buf)
    {
      size := 0;
      var i := 0;
      ghost var last := 0;     // one past the last buffer of size SIZE_MAX so far
      while i < |buf|
        invariant last <= i <= |buf| && (last > 0 ==> buf[last - 1].size == SIZE_MAX)
        invariant size == (if last > 0 then SIZE_MAX else 0) + (Start(buf, i) - Start(buf, last))
        invariant forall k :: last <= k < i ==> buf[k].size != SIZE_MAX
        invariant last > 0 ==> size >= SIZE_MAX
      {
        if buf[i].size == SIZE_MAX {
          size := SIZE_MAX;
          last := i + 1;
        } else {
          size := size + buf[i].size;
        }
        i := i + 1;
      }
      forall k: nat | LastUnsized(buf, k) ensures k + 1 == last { }
    }
  }

  // ------------------------------------------------------------------- copying

  /** The bytes a result stands for: none if it is an error. */
  function Count(res: int): nat { if res < 0 then 0 else res }

  class Machine {
    const mem: array<Byte>
    var log: seq<Put>

    constructor (mem: array<Byte>)
      ensures this.mem == mem && log == []
    {
      this.mem, log := mem, [];
    }

    ghost function View(): World
      reads this, mem
    {
      World(mem[..], log)
    }

    /** write and pwrite: any number of bytes up to the length may be taken, or the call may fail. */
    method Write(dst: Buf, dstOff: nat, start: nat, len: nat) returns (res: int, errno: nat, ghost n: nat)
      requires dst.Fd? && start + len <= mem.Length
      modifies this`log
      ensures -1 <= res <= len && errno > 0 && n == Count(res)
      ensures View() == Send(old(View()), dst, dstOff, mem[..], start, n)
    {
      res, errno := *, *;
      if errno == 0 { errno := 1; }
      if res < 0 || res > len { return -1, errno, 0; }
      n := res;
      var i: nat := 0;
      while i < res
        invariant i <= res && View() == Send(old(View()), dst, dstOff, mem[..], start, i)
      {
        log := log + [Put(SlotOf(dst, dstOff + i), mem[start + i])];
        i := i + 1;
      }
    }

    /** fuse_buf_write: a negative result means that nothing was written, any other one says how much. */
    method WriteBuf(dst: Buf, dstOff: nat, src: Buf, srcOff: nat, len: nat) returns (res: int)
      requires dst.Fd? && src.Mem? && src.addr + srcOff + len <= mem.Length
      modifies this`log
      ensures res <= len
      ensures View() == Send(old(View()), dst, dstOff, mem[..], src.addr + srcOff, Count(res))
    {
      var copied: nat, left: nat := 0, len;
      var at := src.addr + srcOff;
      ghost var w := View();
      while left > 0
        invariant copied + left == len && View() == Send(w, dst, dstOff, mem[..], at, copied)
      {
        var errno;
        ghost var n;
        res, errno, n := Write(dst, dstOff + copied, at + copied, left);
        SendMore(w, dst, dstOff, mem[..], at, copied, n);
        if res == -1 {
          if copied == 0 {
            var e: int := errno;
            return -e;
          }
          break;
        }
        if res == 0 {
          break;
        }
        copied := copied + res;
        left := left - res;
        if !dst.retry {
          break;
        }
      }
      return copied;
    }

    /** memcpy or memmove, unless it would copy memory onto itself */
    method CopyMemory(dst: Buf, dstOff: nat, srcmem: nat, len: nat)
      requires dst.Mem? && srcmem + len <= mem.Length && dst.addr + dstOff + len <= mem.Length
      modifies mem
      ensures View() == Send(old(View()), dst, dstOff, old(mem[..]), srcmem, len)
    {
      var dstmem := dst.addr + dstOff;
      SendBlock(View(), dst, dstOff, mem[..], srcmem, len);
      if dstmem != srcmem {
        forall k | dstmem <= k < dstmem + len {
          mem[k] := mem[srcmem + (k - dstmem)];
        }
      }
      assert mem[..] == Send(old(View()), dst, dstOff, old(mem[..]), srcmem, len).mem;
    }

    /** fuse_buf_copy_one from memory */
    method CopyOne(dst: Buf, dstOff: nat, src: Buf, srcOff: nat, len: nat) returns (res: int)
      requires src.Mem? && src.addr + srcOff + len <= mem.Length && (dst.Mem? ==> dst.addr + dstOff + len <= mem.Length)
      modifies this`log, mem
      ensures res <= len && (dst.Mem? ==> res == len)
      ensures View() == Send(old(View()), dst, dstOff, old(mem[..]), src.addr + srcOff, Count(res))
    {
      if dst.Mem? {
        CopyMemory(dst, dstOff, src.addr + srcOff, len);
        return len;
      }
      res := WriteBuf(dst, dstOff, src, srcOff, len);
    }

    /** `n` bytes have been transferred, and both cursors have moved over them. */
    ghost predicate Going(dstv: BufVec, srcv: BufVec, w: World, s: seq<Slot>, u: nat, b: seq<Byte>, t: nat, n: nat)
      reads this, mem, dstv, srcv
    {
      && dstv.Valid() && srcv.Valid() && Fixed(dstv, srcv, s, b) && BytesOf(b, srcv.buf, mem[..])
      && dstv.At() == u + n <= |s| && srcv.At() == t + n <= |b| && View() == Transfer(w, s, u, b, t, n)
    }

    /** What the caller has to see to. */
    ghost predicate Fixed(dstv: BufVec, srcv: BufVec, s: seq<Slot>, b: seq<Byte>)
    {
      && AllMem(srcv.buf) && InMemory(srcv.buf, mem.Length) && InMemory(dstv.buf, mem.Length)
      && Disjoint(srcv.buf, dstv.buf) && SlotsOf(s, dstv.buf) && |b| == Total(srcv.buf)
    }

    /** One round of fuse_buf_copy: as much as both current buffers have left. */
    method Round(dstv: BufVec, srcv: BufVec, ghost w: World, ghost s: seq<Slot>, ghost u: nat, ghost b: seq<Byte>,
            ghost t: nat, ghost n: nat)
        returns (res: int, len: nat)
      requires Going(dstv, srcv, w, s, u, b, t, n) && srcv.idx < |srcv.buf| && dstv.idx < |dstv.buf|
      modifies this`log, mem
      ensures res <= len && (dstv.buf[dstv.idx].Mem? ==> res == len)
      ensures var src, dst := srcv.buf[srcv.idx], dstv.buf[dstv.idx];
              len == if src.size - srcv.off < dst.size - dstv.off then src.size - srcv.off else dst.size - dstv.off
      ensures u + n + Count(res) <= |s| && t + n + Count(res) <= |b|
      ensures View() == Transfer(w, s, u, b, t, n + Count(res)) && BytesOf(b, srcv.buf, mem[..])
    {
      var src, dst := srcv.buf[srcv.idx], dstv.buf[dstv.idx];
      var srcLen, dstLen := src.size - srcv.off, dst.size - dstv.off;
      len := if srcLen < dstLen then srcLen else dstLen;
      ghost var v := View();
      res := CopyOne(dst, dstv.off, src, srcv.off, len);
      RoundKeeps(w, v, s, u, b, t, n, dstv.buf, dstv.idx, dstv.off, srcv.buf, srcv.idx, srcv.off, Count(res));
    }

    /** Both cursors move on over a piece, but the source alone if it is used up; false when one of the two is. */
    method AdvanceBoth(dstv: BufVec, srcv: BufVec, res: nat) returns (more: bool)
      requires dstv != srcv && dstv.Valid() && srcv.Valid() && srcv.idx < |srcv.buf| && dstv.idx < |dstv.buf|
      requires srcv.off + res <= srcv.buf[srcv.idx].size && dstv.off + res <= dstv.buf[dstv.idx].size
      modifies dstv, srcv
      ensures dstv.Valid() && srcv.Valid() && srcv.At() == old(srcv.At()) + res
      ensures dstv.At() == old(dstv.At()) + if srcv.idx == |srcv.buf| then 0 else res
      ensures more <==> srcv.idx < |srcv.buf| && dstv.idx < |dstv.buf|
      ensures srcv.idx == |srcv.buf| || Inside(srcv.buf, srcv.idx, srcv.off)
      ensures srcv.idx == old(srcv.idx) + if old(srcv.off) + res == srcv.buf[old(srcv.idx)].size then 1 else 0
      ensures dstv.idx == old(dstv.idx) +
                if srcv.idx < |srcv.buf| && old(dstv.off) + res == dstv.buf[old(dstv.idx)].size then 1 else 0
      ensures more && (srcv.idx > old(srcv.idx) || dstv.idx > old(dstv.idx)) ==> srcv.off == 0 || dstv.off == 0
    {
      more := srcv.Advance(res);
      if !more {
        return false;
      }
      more := dstv.Advance(res);
    }

    /** Both cursors are inside, and one of them has begun a buffer, unless nothing has been copied yet. */
    ghost predicate Onward(dstv: BufVec, srcv: BufVec, n: nat)
      reads dstv, srcv
    {
      n == 0 || (Inside(srcv.buf, srcv.idx, srcv.off) && dstv.idx < |dstv.buf| && (dstv.off == 0 || srcv.off == 0))
    }

    /** One turn of the loop of fuse_buf_copy: a round, and then on to the next unless it was the last one. */
    method Turn(dstv: BufVec, srcv: BufVec, ghost w: World, ghost s: seq<Slot>, ghost u: nat, ghost b: seq<Byte>,
            ghost t: nat, ghost n: nat)
        returns (res: int, more: bool)
      requires dstv != srcv && Going(dstv, srcv, w, s, u, b, t, n) && Onward(dstv, srcv, n)
      requires srcv.idx < |srcv.buf| && dstv.idx < |dstv.buf|
      modifies this`log, mem, dstv, srcv
      ensures dstv.Valid() && srcv.Valid() && BytesOf(b, srcv.buf, mem[..])
      ensures u + n + Count(res) <= |s| && srcv.At() == t + n + Count(res) <= |b|
      ensures View() == Transfer(w, s, u, b, t, n + Count(res))
      ensures dstv.At() == Stop(dstv.buf, u, srcv.buf, t, n + Count(res))
      ensures more ==> res >= 0 && Onward(dstv, srcv, n + res) && dstv.At() == u + n + res
      ensures more ==> srcv.idx < |srcv.buf| && dstv.idx < |dstv.buf|
      ensures more ==> srcv.idx + dstv.idx > old(srcv.idx + dstv.idx)
      ensures AllMem(dstv.buf) ==> res >= 0 && (more || srcv.idx == |srcv.buf| || dstv.idx == |dstv.buf|)
    {
      var len;
      res, len := Round(dstv, srcv, w, s, u, b, t, n);
      if res < 0 {
        StopsAfter(dstv.buf, u, srcv.buf, t, n, srcv.idx, srcv.off);
        return res, false;
      }
      ghost var j, p, o := dstv.idx, dstv.off, srcv.off;
      more := AdvanceBoth(dstv, srcv, res);
      if srcv.idx == |srcv.buf| {
        StopsBefore(dstv.buf, u, srcv.buf, t, n, j, p, o, res);
      } else {
        StopsAfter(dstv.buf, u, srcv.buf, t, n + res, srcv.idx, srcv.off);
      }
      more := more && res == len;
    }

    /** The rounds of fuse_buf_copy. */
    method CopyRounds(dstv: BufVec, srcv: BufVec, ghost s: seq<Slot>, ghost b: seq<Byte>) returns (r: int)
      requires dstv != srcv && dstv.Valid() && srcv.Valid() && dstv.At() <= |s| && srcv.At() <= |b|
      requires Going(dstv, srcv, View(), s, dstv.At(), b, srcv.At(), 0)
      modifies this`log, mem, dstv, srcv
      ensures dstv.Valid() && srcv.Valid() && BytesOf(b, srcv.buf, mem[..])
      ensures old(dstv.At()) + Count(r) <= |s| && srcv.At() == old(srcv.At()) + Count(r) <= |b|
      ensures View() == Transfer(old(View()), s, old(dstv.At()), b, old(srcv.At()), Count(r))
      ensures dstv.At() == Stop(dstv.buf, old(dstv.At()), srcv.buf, old(srcv.At()), Count(r))
      ensures AllMem(dstv.buf) ==> r >= 0 && (srcv.idx == |srcv.buf| || dstv.idx == |dstv.buf|)
    {
      var copied: nat := 0;
      ghost var w, u, t := View(), dstv.At(), srcv.At();
      while srcv.idx < |srcv.buf| && dstv.idx < |dstv.buf|
        invariant Going(dstv, srcv, w, s, u, b, t, copied) && Onward(dstv, srcv, copied)
        invariant copied > 0 ==> srcv.idx < |srcv.buf|
        decreases |srcv.buf| - srcv.idx + |dstv.buf| - dstv.idx
      {
        var res, more := Turn(dstv, srcv, w, s, u, b, t, copied);
        if res < 0 && copied == 0 {
          return res;
        }
        copied := copied + Count(res);
        if !more {
          return copied;
        }
      }
      return copied;
    }

    /**
      fuse_buf_copy from memory; `s` and `b` are the destination and the source flattened.  A negative
      result means that nothing was copied.  Any other result r means that exactly the next r bytes of
      the source went to the next r places of the destination, and that the source cursor has moved
      over them.  So has the destination cursor, if and only if nothing was copied, or the source has
      something left, or its last buffer is empty; else it stands where the last piece begins.
     */
    method Copy(dstv: BufVec, srcv: BufVec, ghost s: seq<Slot>, ghost b: seq<Byte>) returns (r: int)
      requires dstv.Valid() && srcv.Valid() && dstv.At() <= |s| && srcv.At() <= |b|
      requires dstv != srcv ==> Fixed(dstv, srcv, s, b) && BytesOf(b, srcv.buf, mem[..])
      modifies this`log, mem, dstv, srcv
      ensures dstv.Valid() && srcv.Valid()
      ensures dstv == srcv ==> View() == old(View()) && dstv.At() == old(dstv.At())
      ensures dstv == srcv && (forall i :: 0 <= i < |dstv.buf| ==> dstv.buf[i].size != SIZE_MAX) ==> r == Total(dstv.buf)
      ensures dstv != srcv ==>
                && old(dstv.At()) + Count(r) <= |s| && srcv.At() == old(srcv.At()) + Count(r) <= |b|
                && View() == Transfer(old(View()), s, old(dstv.At()), b, old(srcv.At()), Count(r))
                && BytesOf(b, srcv.buf, mem[..])
      ensures dstv != srcv ==> dstv.At() == Stop(dstv.buf, old(dstv.At()), srcv.buf, old(srcv.At()), Count(r))
      ensures dstv != srcv ==>
                (dstv.At() == old(dstv.At()) + Count(r) <==>
                 r <= 0 || r < |b| - old(srcv.At()) || srcv.buf[|srcv.buf| - 1].size == 0)
      ensures dstv != srcv && AllMem(dstv.buf) ==>
                var srcLeft, dstLeft := |b| - old(srcv.At()), |s| - old(dstv.At());
                r == if srcLeft < dstLeft then srcLeft else dstLeft
    {
      if dstv == srcv {
        r := dstv.Size();
        return;
      }
      ghost var u, t := dstv.At(), srcv.At();
      r := CopyRounds(dstv, srcv, s, b);
      if r > 0 { LastPieceShort(dstv.buf, u, srcv.buf, t, r); }
    }
  }

  /**
    Two bytes of room and one byte to copy: the byte is copied, and the destination cursor stays at 0, so
    that a second copy into the same vector would overwrite it.
   */
  method CursorStaysBehind(byte: Byte) returns (r: int, idx: nat, off: nat, mem: array<Byte>)
    ensures r == 1 && idx == 0 && off == 0 && fresh(mem) && mem.Length == 6 && mem[4] == byte
  {
    mem := new Byte[6](_ => 0);
    mem[0] := byte;
    var machine := new Machine(mem);
    var srcv := new BufVec([Mem(0, 1)], 0, 0);
    var dstv := new BufVec([Mem(4, 2)], 0, 0);
    ghost var s, b := [MemSlot(4), MemSlot(5)], [byte];
    ghost var w := machine.View();
    r := machine.Copy(dstv, srcv, s, b);
    idx, off := dstv.idx, dstv.off;
    assert Transfer(w, s, 0, b, 0, 1) == Store(Transfer(w, s, 0, b, 0, 0), s[0], b[0]);
  }

  // --------------------------------------------------- memory to memory, in bytes

  /** The places of a transfer are distinct addresses. */
  ghost predicate Distinct(s: seq<Slot>, n: nat)
  {
    && (forall x :: 0 <= x < |s| ==> s[x].MemSlot? && s[x].addr < n)
    && (forall x, y :: 0 <= x < y < |s| ==> s[x].addr != s[y].addr)
  }

  /** After a transfer to memory each place has its byte, and all other memory is untouched. */
  lemma {:induction false} TransferredMemory(w: World, s: seq<Slot>, u: nat, b: seq<Byte>, t: nat, n: nat)
    requires u + n <= |s| && t + n <= |b| && Distinct(s, |w.mem|)
    ensures var v := Transfer(w, s, u, b, t, n);
            && v.log == w.log
            && (forall x :: u <= x < u + n ==> v.mem[s[x].addr] == b[t + (x - u)])
            && (forall y :: 0 <= y < |w.mem| && (forall x :: u <= x < u + n ==> s[x].addr != y) ==> v.mem[y] == w.mem[y])
  {
    if n > 0 { TransferredMemory(w, s, u, b, t, n - 1); }
  }
}
