/**
  An open directory: the buffer that file systems fill through fill_dir, and readdir on it.
 */
module DirHandle {
  import opened DirFormat
  import opened Wrappers

  const UNSIGNED_MAX: nat := 0xffff_ffff

  /** Bytes of `buf` outside [lo, hi) are as they were. */
  ghost predicate Elsewhere(buf: seq<Byte>, was: seq<Byte>, lo: nat, hi: nat)
  {
    |buf| == |was| && forall k {:trigger buf[k]} :: 0 <= k < |buf| && !(lo <= k < hi) ==> buf[k] == was[k]
  }

  lemma StoreStep(done: seq<Byte>, rest: nat, k: nat)
    requires k > 0
    ensures done + LittleEndian(rest, k) == (done + [rest % 256]) + LittleEndian(rest / 256, k - 1)
  {
  }

  /** Stores the lowest `k` bytes of `n`, lowest first. */
  method StoreField(buf: array<Byte>, at: nat, n: nat, k: nat)
    requires at + k <= buf.Length
    modifies buf
    ensures buf[at..at + k] == LittleEndian(n, k) && Elsewhere(buf[..], old(buf[..]), at, at + k)
  {
    hide LittleEndian;
    var rest := n;
    var i := 0;
    while i < k
      invariant i <= k && buf[at..at + i] + LittleEndian(rest, k - i) == LittleEndian(n, k)
      invariant Elsewhere(buf[..], old(buf[..]), at, at + i)
    {
      ghost var done := buf[at..at + i];
      buf[at + i] := rest % 256;
      assert buf[at..at + i + 1] == done + [rest % 256];
      StoreStep(done, rest, k - i);
      rest := rest / 256;
      i := i + 1;
    }
  }

  method StoreName(buf: array<Byte>, at: nat, name: seq<Byte>)
    requires at + |name| <= buf.Length
    modifies buf
    ensures buf[at..at + |name|] == name && Elsewhere(buf[..], old(buf[..]), at, at + |name|)
  {
    var i := 0;
    while i < |name|
      invariant i <= |name| && buf[at..at + i] == name[..i]
      invariant Elsewhere(buf[..], old(buf[..]), at, at + i)
    {
      ghost var done := buf[at..at + i];
      buf[at + i] := name[i];
      assert buf[at..at + i + 1] == done + [name[i]] == name[..i + 1];
      i := i + 1;
    }
  }

  lemma ElsewhereSlice(buf: seq<Byte>, was: seq<Byte>, lo: nat, hi: nat, x: nat, y: nat)
    requires Elsewhere(buf, was, lo, hi) && x <= y <= |buf| && (y <= lo || hi <= x)
    ensures buf[x..y] == was[x..y]
  {
  }

  lemma Slices(buf: seq<Byte>, x: nat, y: nat, z: nat)
    requires x <= y <= z <= |buf|
    ensures buf[x..z] == buf[x..y] + buf[y..z]
  {
  }

  /** Stores a field behind `done`, which ends where the field begins. */
  method AppendField(buf: array<Byte>, at: nat, end: nat, n: nat, k: nat, ghost done: seq<Byte>)
    requires at <= end && end + k <= buf.Length && buf[at..end] == done
    modifies buf
    ensures buf[at..end + k] == done + LittleEndian(n, k) && Elsewhere(buf[..], old(buf[..]), end, end + k)
  {
    ghost var was := buf[..];
    StoreField(buf, end, n, k);
    ElsewhereSlice(buf[..], was, end, end + k, at, end);
    Slices(buf[..], at, end, end + k);
  }

  method AppendName(buf: array<Byte>, at: nat, end: nat, name: seq<Byte>, ghost done: seq<Byte>)
    requires at <= end && end + |name| <= buf.Length && buf[at..end] == done
    modifies buf
    ensures buf[at..end + |name|] == done + name && Elsewhere(buf[..], old(buf[..]), end, end + |name|)
  {
    ghost var was := buf[..];
    StoreName(buf, end, name);
    ElsewhereSlice(buf[..], was, end, end + |name|, at, end);
    Slices(buf[..], at, end, end + |name|);
  }

  /** fuse_add_dirent */
  method AddDirent(buf: array<Byte>, at: nat, name: seq<Byte>, ino: nat, mode: nat, off: nat)
    requires at + DirentSize(|name|) <= buf.Length
    modifies buf
    ensures buf[at..at + DirentSize(|name|)] == Encode(Dirent(ino, off, Kind(mode), name))
    ensures Elsewhere(buf[..], old(buf[..]), at, at + DirentSize(|name|))
  {
    var entlen := FUSE_NAME_OFFSET + |name|;
    var padlen := DirentSize(|name|) - entlen;
    hide LittleEndian, Padding, Elsewhere;
    ghost var a, b, c := LittleEndian(ino, 8), LittleEndian(off, 8), LittleEndian(|name|, 4);
    ghost var d := LittleEndian(Kind(mode), 4);
    AppendField(buf, at, at, ino, 8, []);
    assert [] + a == a;
    AppendField(buf, at, at + 8, off, 8, a);
    AppendField(buf, at, at + 16, |name|, 4, a + b);
    AppendField(buf, at, at + 20, Kind(mode), 4, a + b + c);
    AppendName(buf, at, at + 24, name, a + b + c + d);
    AppendName(buf, at, at + entlen, Padding(padlen), a + b + c + d + name);
  }

  /** struct fuse_dh */
  class Handle {
    var contents: array<Byte>
    var len: nat
    var needlen: nat
    var filled: bool
    var error: bool

    ghost predicate Valid()
      reads this
    {
      len <= contents.Length <= UNSIGNED_MAX
    }

    ghost function Content(): seq<Byte>
      requires Valid()
      reads this, contents
    {
      contents[..len]
    }

    /** fuse_lib_opendir */
    constructor ()
      ensures Valid() && fresh(contents) && Content() == [] && !filled && !error
    {
      contents := new Byte[0];
      len, needlen, filled, error := 0, 0, false, false;
    }

    /** extend_contents: doubles the buffer from 1024 bytes until it is large enough. */
    method ExtendContents(minsize: nat, reallocOk: bool) returns (ok: bool)
      requires Valid() && minsize <= UNSIGNED_MAX
      modifies this`contents, this`error
      ensures Valid() && Content() == old(Content()) && (contents == old(contents) || fresh(contents))
      ensures ok <==> minsize <= old(contents.Length) || reallocOk
      ensures if ok then contents.Length >= minsize && error == old(error) else error && contents == old(contents)
      ensures minsize <= old(contents.Length) ==> contents == old(contents)
    {
      if minsize > contents.Length {
        var newsize := contents.Length;
        if newsize == 0 {
          newsize := 1024;
        }
        while newsize < minsize
          invariant contents.Length <= newsize <= UNSIGNED_MAX && newsize > 0
          decreases UNSIGNED_MAX - newsize
        {
          if newsize >= 0x8000_0000 {
            newsize := 0xffff_ffff;
          } else {
            newsize := newsize * 2;
          }
        }
        if !reallocOk {
          error := true;
          return false;
        }
        var bigger := new Byte[newsize](_ => 0);
        forall i | 0 <= i < contents.Length {
          bigger[i] := contents[i];
        }
        assert bigger[..len] == contents[..len];
        contents := bigger;
      }
      return true;
    }

    /** fuse_add_direntry: the size the entry needs, and the entry itself if there is a buffer with room for it. */
    method AddDirentry(hasBuf: bool, bufsize: nat, name: seq<Byte>, ino: nat, mode: nat,
            off: nat) returns (entsize: nat)
      requires Valid() && (hasBuf ==> len + bufsize <= contents.Length)
      modifies contents
      ensures entsize == DirentSize(|name|) && Content() == old(Content())
      ensures hasBuf && entsize <= bufsize ==>
                len + entsize <= contents.Length
                && contents[len..len + entsize] == Encode(Dirent(ino, off, Kind(mode), name))
                && Elsewhere(contents[..], old(contents[..]), len, len + entsize)
      ensures !(hasBuf && entsize <= bufsize) ==> contents[..] == old(contents[..])
    {
      entsize := DirentSize(|name|);
      if entsize <= bufsize && hasBuf {
        ghost var was := contents[..];
        AddDirent(contents, len, name, ino, mode, off);
        ElsewhereSlice(contents[..], was, len, len + entsize, 0, len);
      }
    }

    /** The first branch of fill_dir, for a file system that passes offsets. */
    method FillOffered(item: Item, off: nat, reallocOk: bool) returns (stop: bool)
      requires Valid() && needlen <= UNSIGNED_MAX && len <= needlen
      modifies this`contents, this`len, this`filled, this`error, contents
      ensures Valid() && (contents == old(contents) || fresh(contents))
      ensures if needlen > old(contents.Length) && !reallocOk then stop && error && filled == old(filled)
              else error == old(error) && !filled && (stop <==> old(len) + DirentSize(|item.name|) > needlen)
      ensures Content() == old(Content()) + if stop then [] else Encode(Dirent(item.ino, off, Kind(item.mode), item.name))
    {
      var ok := ExtendContents(needlen, reallocOk);
      if !ok {
        return true;
      }
      filled := false;
      var entsize := AddDirentry(true, needlen - len, item.name, item.ino, item.mode, off);
      if len + entsize > needlen {
        return true;
      }
      Append(entsize);
      return false;
    }

    /** The other branch of fill_dir: the offset is where the next entry will begin. */
    method FillOwn(item: Item, reallocOk: bool) returns (stop: bool)
      requires Valid() && len + DirentSize(|item.name|) <= UNSIGNED_MAX
      modifies this`contents, this`len, this`error, contents
      ensures Valid() && (contents == old(contents) || fresh(contents))
      ensures var newlen := old(len) + DirentSize(|item.name|);
              && (stop <==> newlen > old(contents.Length) && !reallocOk) && error == (old(error) || stop)
              && Content() == old(Content()) + if stop then [] else Encode(Dirent(item.ino, newlen, Kind(item.mode), item.name))
    {
      hide Encode, Kind;
      var entsize := AddDirentry(false, 0, item.name, 0, 0, 0);
      var newlen := len + entsize;
      var ok := ExtendContents(newlen, reallocOk);
      if !ok {
        return true;
      }
      entsize := AddDirentry(true, contents.Length - len, item.name, item.ino, item.mode, newlen);
      Append(entsize);
      return false;
    }

    /** dh->len = newlen */
    method Append(size: nat)
      requires Valid() && len + size <= contents.Length
      modifies this`len
      ensures Valid() && Content() == old(Content()) + contents[old(len)..old(len) + size]
    {
      Slices(contents[..], 0, len, len + size);
      assert contents[..len + size] == contents[..][0..len + size];
      len := len + size;
    }

    /** fill_dir; the result tells the file system to stop. */
    method FillDir(item: Item, off: nat, reallocOk: bool) returns (stop: bool)
      requires Valid() && needlen <= UNSIGNED_MAX && (off != 0 ==> len <= needlen)
      requires len + DirentSize(|item.name|) <= UNSIGNED_MAX
      modifies this`contents, this`len, this`filled, this`error, contents
      ensures Valid() && (contents == old(contents) || fresh(contents))
      ensures stop ==> Content() == old(Content())
      ensures var need := if off != 0 then needlen else old(len) + DirentSize(|item.name|);
              if need > old(contents.Length) && !reallocOk then stop && error && filled == old(filled)
              else error == old(error) && filled == (old(filled) && off == 0)
                   && (stop <==> off != 0 && old(len) + DirentSize(|item.name|) > needlen)
      ensures !stop ==>
                var position := if off != 0 then off else old(len) + DirentSize(|item.name|);
                Content() == old(Content()) + Encode(Dirent(item.ino, position, Kind(item.mode), item.name))
    {
      if off != 0 {
        stop := FillOffered(item, off, reallocOk);
      } else {
        stop := FillOwn(item, reallocOk);
      }
    }

    /** One name more of a directory whose first `i` names are in the buffer. */
    method FillNext(items: seq<Item>, i: nat)
      requires Valid() && needlen <= UNSIGNED_MAX && i < |items| && filled && !error
      requires Content() == Cat(Dirents(items[..i], 0)) && |Cat(Dirents(items, 0))| <= UNSIGNED_MAX
      modifies this`contents, this`len, this`filled, this`error, contents
      ensures Valid() && (contents == old(contents) || fresh(contents)) && filled && !error
      ensures Content() == Cat(Dirents(items[..i + 1], 0))
    {
      AppendItem(items, i);
      var _ := FillDir(items[i], 0, true);
    }

    /** readdir_fill with a file system that passes no offsets: everything goes into the buffer. */
    method FillAll(items: seq<Item>, size: nat)
      requires Valid() && size <= UNSIGNED_MAX && |Cat(Dirents(items, 0))| <= UNSIGNED_MAX
      modifies this, contents
      ensures Valid() && filled && !error && Content() == Cat(Dirents(items, 0))
      ensures contents == old(contents) || fresh(contents)
    {
      len, error, needlen, filled := 0, false, size, true;
      var i := 0;
      while i < |items|
        invariant i <= |items| && Valid() && filled && !error && needlen == size
        invariant Content() == Cat(Dirents(items[..i], 0))
        invariant contents == old(contents) || fresh(contents)
      {
        FillNext(items, i);
        i := i + 1;
      }
      assert items[..i] == items;
    }

    /** readdir_fill with a file system that passes offsets: as many entries as fit in the request. */
    method FillPage(ls: seq<Listed>, size: nat)
      requires Valid() && size <= UNSIGNED_MAX && forall i :: 0 <= i < |ls| ==> ls[i].off != 0
      requires forall i :: 0 <= i < |ls| ==> size + DirentSize(|ls[i].item.name|) <= UNSIGNED_MAX
      modifies this, contents
      ensures Valid() && !error && (ls != [] ==> !filled)
      ensures Content() == Cat(Offered(ls)[..Fits(Offered(ls), 0, size)])
      ensures contents == old(contents) || fresh(contents)
    {
      hide Encode, Cat, Fits;
      len, error, needlen, filled := 0, false, size, true;
      ghost var es := Offered(ls);
      CatEmpty(es);
      var i := 0;
      while i < |ls|
        invariant i <= |ls| && Valid() && !error && needlen == size && len <= size && (i > 0 ==> !filled)
        invariant Content() == Cat(es[..i]) && i <= Fits(es, 0, size)
        invariant contents == old(contents) || fresh(contents)
      {
        AppendEntry(es, i, size);
        var stop := FillDir(ls[i].item, ls[i].off, true);
        if stop {
          return;
        }
        i := i + 1;
      }
      assert es[..i] == es;
    }

    /** The reply of fuse_lib_readdir, from the filled buffer on. */
    method Reply(off: nat, size: nat) returns (page: seq<Byte>)
      requires Valid()
      ensures page == if filled then Page(Content(), off, size) else Content()
    {
      var n, start := size, off;
      if filled {
        if start < len {
          if start + n > len {
            n := len - start;
          }
        } else {
          n := 0;
          start := 0;
        }
      } else {
        n := len;
        start := 0;
      }
      page := contents[start..start + n];
    }

    /** readdir_fill; true if the file system fails. */
    method ReaddirFill(listing: Listing, size: nat) returns (err: bool)
      requires Valid() && Handable(listing, size)
      modifies this, contents
      ensures Valid() && (contents == old(contents) || fresh(contents)) && err == listing.fails
      ensures err ==> !filled
      ensures !err && listing.Own? ==> filled && Content() == Cat(Dirents(listing.items, 0))
      ensures !err && listing.Offers? ==>
                Content() == Cat(Offered(listing.ls)[..Fits(Offered(listing.ls), 0, size)]) && (listing.ls != [] ==> !filled)
    {
      match listing {
        case Own(items, _) => FillAll(items, size);
        case Offers(ls, _) => FillPage(ls, size);
      }
      if listing.fails {
        filled := false;
      }
      err := listing.fails;
    }

    /**
      fuse_lib_readdir: the file system is asked, for `listing`, at offset 0 and as long as the buffer does
      not hold a whole directory; no reply is an error.
     */
    method Readdir(listing: Listing, off: nat, size: nat) returns (page: Option<seq<Byte>>)
      requires Valid() && Handable(listing, size)
      modifies this, contents
      ensures Valid() && (contents == old(contents) || fresh(contents))
      ensures off > 0 && old(filled) ==>
                filled && Content() == old(Content()) && page == Some(Page(Content(), off, size))
      ensures off == 0 || !old(filled) ==> (page.None? <==> listing.fails) && (listing.fails ==> !filled)
      ensures (off == 0 || !old(filled)) && listing.Own? && !listing.fails ==>
                filled && Content() == Cat(Dirents(listing.items, 0)) && page == Some(Page(Content(), off, size))
      ensures (off == 0 || !old(filled)) && listing.Offers? && !listing.fails ==>
                && page == Some(Cat(Offered(listing.ls)[..Fits(Offered(listing.ls), 0, size)]))
                && (listing.ls != [] ==> !filled)
    {
      hide Dirents, Fits, Offered;
      if off == 0 {
        filled := false;
      }
      if !filled {
        var err := ReaddirFill(listing, size);
        if err {
          return None;
        }
      }
      var reply := Reply(off, size);
      page := Some(reply);
    }
  }

  /** What a file system hands over when it is asked: names without offsets of its own, or with them; it may fail. */
  datatype Listing = Own(items: seq<Item>, fails: bool) | Offers(ls: seq<Listed>, fails: bool)

  /** The sizes that the library computes with stay in range. */
  ghost predicate Handable(listing: Listing, size: nat)
  {
    && size <= UNSIGNED_MAX
    && match listing
       case Own(items, _) => |Cat(Dirents(items, 0))| <= UNSIGNED_MAX
       case Offers(ls, _) =>
         forall i :: 0 <= i < |ls| ==> ls[i].off != 0 && size + DirentSize(|ls[i].item.name|) <= UNSIGNED_MAX
  }

  // ----------------------------------------------------- reading through a handle

  /** A reader has come to entry `k`, with the requests in `sizes` still to make. */
  ghost predicate Midway(es: seq<Dirent>, all: seq<nat>, got: seq<Dirent>, k: nat, sizes: seq<nat>)
  {
    k <= |es| && got == es[..k] && Reached(es, k, sizes) == Reached(es, 0, all)
  }

  /** A request brings the reader to the next entry that does not fit, and nothing means that this was the last one. */
  lemma MidwayStep(es: seq<Dirent>, all: seq<nat>, got: seq<Dirent>, k: nat, i: nat, page: seq<Dirent>)
    requires i < |all| && Midway(es, all, got, k, all[i..]) && page == es[k..k + Fits(es, k, all[i])]
    ensures page == [] ==> got == es[..Reached(es, 0, all)]
    ensures page != [] ==>
              k + |page| <= |es| && Midway(es, all, got + page, k + |page|, all[i + 1..])
              && page[|page| - 1] == es[k + |page| - 1]
  {
    hide Fits, Size;
    assert all[i..][1..] == all[i + 1..];
    assert es[..k] + page == es[..k + |page|];
  }

  lemma MidwayStart(es: seq<Dirent>, all: seq<nat>)
    ensures Midway(es, all, [], 0, all[0..])
  {
    assert all[0..] == all;
  }

  lemma MidwayDone(es: seq<Dirent>, all: seq<nat>, got: seq<Dirent>, k: nat)
    requires Midway(es, all, got, k, all[|all|..])
    ensures got == es[..Reached(es, 0, all)]
  {
  }

  /** When every request has room for what it comes to, the reader comes to the end. */
  lemma ReachedEnd(es: seq<Dirent>, sizes: seq<nat>)
    requires FitsNext(es, 0, sizes) && |sizes| >= |es|
    ensures es[..Reached(es, 0, sizes)] == es
  {
  }

  lemma PositionPositive(es: seq<Dirent>, k: nat)
    requires 0 < k <= |es|
    ensures Position(es, k) > 0
  {
  }

  /** A request for what follows entry `k` of a directory that is in the buffer. */
  lemma OwnPage(items: seq<Item>, k: nat, size: nat)
    requires Small(items) && k <= |items|
    ensures var es := Dirents(items, 0);
            && Parse(Page(Cat(es), Position(es, k), size)) == es[k..k + Fits(es, k, size)]
            && (forall i :: 0 <= i < |items| ==> es[i].name == items[i].name && es[i].off == Position(es, i + 1))
  {
    hide *;
    SmallEncodable(items);
    PageParses(Dirents(items, 0), k, size);
    forall i: nat | i < |items| ensures Dirents(items, 0)[i].name == items[i].name
                                        && Dirents(items, 0)[i].off == Position(Dirents(items, 0), i + 1) {
      DirentsAre(items, 0, i);
    }
  }

  /**
    A reader on one open handle: the directory is taken down at the first request, and whatever the file
    system would say at the later ones, the reader gets the names of then, each once and in order, and all
    of them if every request has room for the entry it comes to.
   */
  method ReadDirectory(dh: Handle, listings: seq<Listing>, sizes: seq<nat>, ghost items: seq<Item>)
      returns (got: seq<Dirent>)
    requires dh.Valid() && Small(items) && |listings| == |sizes| > 0 && listings[0] == Own(items, false)
    requires forall i :: 0 <= i < |sizes| ==> Handable(listings[i], sizes[i])
    modifies dh, dh.contents
    ensures got == Dirents(items, 0)[..Reached(Dirents(items, 0), 0, sizes)]
    ensures FitsNext(Dirents(items, 0), 0, sizes) && |sizes| >= |items| ==> got == Dirents(items, 0)
  {
    hide Parse, Cat, Page, Reached, Fits, Dirents, Small, Handable, FitsNext, Midway;
    ghost var es := Dirents(items, 0);
    if FitsNext(es, 0, sizes) && |sizes| >= |items| { ReachedEnd(es, sizes); }
    ghost var k: nat := 0;
    var off: nat, i: nat := 0, 0;
    got := [];
    MidwayStart(es, sizes);
    while i < |sizes|
      invariant i <= |sizes| && dh.Valid() && (dh.contents == old(dh.contents) || fresh(dh.contents))
      invariant Midway(es, sizes, got, k, sizes[i..]) && k <= |es| && off == Position(es, k)
      invariant if i == 0 then off == 0 else k > 0
      invariant i > 0 ==> dh.filled && dh.Content() == Cat(es)
    {
      if k > 0 { PositionPositive(es, k); }
      var page := dh.Readdir(listings[i], off, sizes[i]);
      var part := Parse(page.value);
      OwnPage(items, k, sizes[i]);
      MidwayStep(es, sizes, got, k, i, part);
      if part == [] {
        return;
      }
      got := got + part;
      off := part[|part| - 1].off;
      k := k + |part|;
      i := i + 1;
    }
    MidwayDone(es, sizes, got, k);
  }

  /** What a file system with offsets of its own resumes with at `off`: what follows the entry with that offset. */
  function After(ls: seq<Listed>, off: nat): (r: seq<Listed>)
    ensures |r| <= |ls|
  {
    if off == 0 || ls == [] then ls else if ls[0].off == off then ls[1..] else After(ls[1..], off)
  }

  /** No two entries have the same offset. */
  ghost predicate Apart(ls: seq<Listed>)
  {
    forall i, j :: 0 <= i < j < |ls| ==> ls[i].off != ls[j].off
  }

  lemma {:induction false} AfterIs(ls: seq<Listed>, k: nat)
    requires 0 < k <= |ls| && ls[k - 1].off != 0
    requires Apart(ls)
    ensures After(ls, ls[k - 1].off) == ls[k..]
  {
    if k > 1 {
      assert ls[1..][k - 2] == ls[k - 1] && ls[1..][k - 1..] == ls[k..];
      AfterIs(ls[1..], k - 1);
    }
  }

  /** What the file system hands over for a request that resumes after entry `k`. */
  lemma Resumed(ls: seq<Listed>, k: nat, off: nat, size: nat)
    requires k <= |ls| && Handable(Offers(ls, false), size)
    requires Apart(ls)
    requires if k == 0 then off == 0 else off == ls[k - 1].off
    ensures After(ls, off) == ls[k..] && Handable(Offers(ls[k..], false), size)
    ensures k > 0 ==> off != 0
  {
    if k > 0 { AfterIs(ls, k); }
  }

  lemma OfferedPage(ls: seq<Listed>, k: nat, size: nat)
    requires k <= |ls| && AllEncodable(Offered(ls))
    ensures var fs := Offered(ls[k..]);
            Parse(Cat(fs[..Fits(fs, 0, size)])) == Offered(ls)[k..k + Fits(Offered(ls), k, size)]
  {
    hide *;
    var es, fs := Offered(ls), Offered(ls[k..]);
    RestEncodable(ls, k);
    WholePageParses(fs, size);
    FitsNames(es, k, fs, 0, size);
    assert fs[..Fits(fs, 0, size)] == es[k..k + Fits(es, k, size)];
  }

  lemma OfferedStep(ls: seq<Listed>, all: seq<nat>, got: seq<Dirent>, k: nat, i: nat, page: seq<Dirent>)
    requires AllEncodable(Offered(ls)) && k <= |ls| && i < |all| && Midway(Offered(ls), all, got, k, all[i..])
    requires page == Parse(Cat(Offered(ls[k..])[..Fits(Offered(ls[k..]), 0, all[i])]))
    ensures page == [] ==> got == Offered(ls)[..Reached(Offered(ls), 0, all)]
    ensures page != [] ==>
              k + |page| <= |ls| && Midway(Offered(ls), all, got + page, k + |page|, all[i + 1..])
              && page[|page| - 1].off == ls[k + |page| - 1].off
  {
    hide *;
    OfferedPage(ls, k, all[i]);
    MidwayStep(Offered(ls), all, got, k, i, page);
  }

  /**
    The same for a file system that passes offsets, no two of them alike: it is asked every time, and
    again the reader gets each name once and in order.
   */
  method ReadOffered(dh: Handle, ls: seq<Listed>, sizes: seq<nat>) returns (got: seq<Dirent>)
    requires dh.Valid() && AllEncodable(Offered(ls))
    requires Apart(ls)
    requires forall i :: 0 <= i < |sizes| ==> Handable(Offers(ls, false), sizes[i])
    modifies dh, dh.contents
    ensures got == Offered(ls)[..Reached(Offered(ls), 0, sizes)]
    ensures FitsNext(Offered(ls), 0, sizes) && |sizes| >= |ls| ==> got == Offered(ls)
  {
    hide Parse, Cat, Page, Reached, Fits, AllEncodable, FitsNext, Midway, Handable, After, Apart, Kind, Encode, Offered;
    ghost var es := Offered(ls);
    if FitsNext(es, 0, sizes) && |sizes| >= |ls| { ReachedEnd(es, sizes); }
    ghost var k: nat := 0;
    var off: nat, i: nat := 0, 0;
    got := [];
    MidwayStart(es, sizes);
    while i < |sizes|
      invariant i <= |sizes| && dh.Valid() && (dh.contents == old(dh.contents) || fresh(dh.contents))
      invariant Midway(es, sizes, got, k, sizes[i..]) && k <= |es|
      invariant if k == 0 then off == 0 && i == 0 else off == ls[k - 1].off && !dh.filled
    {
      Resumed(ls, k, off, sizes[i]);
      var left := After(ls, off);
      var page := dh.Readdir(Offers(left, false), off, sizes[i]);
      var part := Parse(page.value);
      OfferedStep(ls, sizes, got, k, i, part);
      if part == [] {
        return;
      }
      got := got + part;
      off := part[|part| - 1].off;
      k := k + |part|;
      i := i + 1;
    }
    MidwayDone(es, sizes, got, k);
  }

  lemma {:induction false} AppendItem(items: seq<Item>, i: nat)
    requires i < |items|
    ensures var before := Cat(Dirents(items[..i], 0));
            var end := |before| + DirentSize(|items[i].name|);
            && Cat(Dirents(items[..i + 1], 0)) == before + Encode(Dirent(items[i].ino, end, Kind(items[i].mode), items[i].name))
            && end <= |Cat(Dirents(items, 0))|
  {
    var x, es := items[i], Dirents(items[..i], 0);
    var end := |Cat(es)| + DirentSize(|x.name|);
    var d := Dirent(x.ino, end, Kind(x.mode), x.name);
    assert items[..i + 1] == items[..i] + [x];
    EndIs(items[..i], 0);
    DirentsAppend(items[..i], [x], 0);
    assert [x][1..] == [];
    assert Dirents([x], |Cat(es)|) == [d];
    CatAppend(es, [d]);
    assert Cat([d]) == Encode(d) + Cat([]) == Encode(d);
    assert items == items[..i + 1] + items[i + 1..];
    DirentsAppend(items[..i + 1], items[i + 1..], 0);
    CatAppend(es + [d], Dirents(items[i + 1..], End(items[..i + 1], 0)));
  }

  /** Entry `i` still fits exactly if the entries before it leave room for it. */
  lemma {:induction false} AppendEntry(es: seq<Dirent>, i: nat, size: nat)
    requires i < |es| && i <= Fits(es, 0, size)
    ensures Cat(es[..i + 1]) == Cat(es[..i]) + Encode(es[i])
    ensures i + 1 <= Fits(es, 0, size) <==> |Cat(es[..i])| + Size(es[i]) <= size
  {
    hide *;
    CatSnoc(es, i);
    PositionIs(es, i);
    PositionStart(es);
    FitsOneMore(es, 0, i, size);
  }

  lemma PositionStart(es: seq<Dirent>)
    ensures Position(es, 0) == 0
  {
  }

  lemma {:induction false} FitsOneMore(es: seq<Dirent>, a: nat, i: nat, m: nat)
    requires a <= i < |es| && i <= a + Fits(es, a, m)
    ensures i + 1 <= a + Fits(es, a, m) <==> Position(es, i) + Size(es[i]) <= m + Position(es, a)
    decreases i - a
  {
    if a < i { FitsOneMore(es, a + 1, i, m - Size(es[a])); }
  }
}
