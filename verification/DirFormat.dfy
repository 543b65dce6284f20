/**
  Directory entries as the kernel interface lays them out in bytes, and the pages in which a
  directory is read.
 */
module DirFormat {
  type Byte = n: nat | n < 256

  /** Offset of the name in struct fuse_dirent. */
  const FUSE_NAME_OFFSET: nat := 24

  /** Largest value of a field of `k` bytes, plus one. */
  function Range(k: nat): nat
  {
    if k == 0 then 1 else 256 * Range(k - 1)
  }

  function LittleEndian(n: nat, k: nat): (s: seq<Byte>)
    ensures |s| == k
  {
    if k == 0 then [] else [n % 256] + LittleEndian(n / 256, k - 1)
  }

  function Value(s: seq<Byte>): nat
  {
    if s == [] then 0 else s[0] + 256 * Value(s[1..])
  }

  lemma {:induction false} ValueOf(n: nat, k: nat)
    requires n < Range(k)
    ensures Value(LittleEndian(n, k)) == n
  {
    if k > 0 {
      ValueOf(n / 256, k - 1);
      assert LittleEndian(n, k)[1..] == LittleEndian(n / 256, k - 1);
    }
  }

  // ------------------------------------------------------------------ entries

  /** struct fuse_dirent with its name. */
  datatype Dirent = Dirent(ino: nat, off: nat, kind: nat, name: seq<Byte>)

  /** fuse_dirent_size: header and name, padded to a multiple of eight. */
  function DirentSize(namelen: nat): (size: nat)
    ensures size % 8 == 0 && FUSE_NAME_OFFSET + namelen <= size < FUSE_NAME_OFFSET + namelen + 8
  {
    (FUSE_NAME_OFFSET + namelen + 7) / 8 * 8
  }

  function Size(e: Dirent): nat { DirentSize(|e.name|) }

  predicate Encodable(e: Dirent)
  {
    e.ino < Range(8) && e.off < Range(8) && e.kind < Range(4) && |e.name| < Range(4)
  }

  function Padding(n: nat): (s: seq<Byte>)
    ensures |s| == n
  {
    seq(n, _ => 0)
  }

  function Encode(e: Dirent): (s: seq<Byte>)
    ensures |s| == Size(e)
  {
    LittleEndian(e.ino, 8) + LittleEndian(e.off, 8) + LittleEndian(|e.name|, 4) + LittleEndian(e.kind, 4) + e.name
    + Padding(Size(e) - FUSE_NAME_OFFSET - |e.name|)
  }

  /** The length of the name of the entry that `s` begins with. */
  function NameLength(s: seq<Byte>): nat
    requires |s| >= FUSE_NAME_OFFSET
  {
    Value(s[16..20])
  }

  function Decode(s: seq<Byte>): Dirent
    requires |s| >= FUSE_NAME_OFFSET && |s| >= DirentSize(NameLength(s))
  {
    Dirent(Value(s[..8]), Value(s[8..16]), Value(s[20..24]), s[24..24 + NameLength(s)])
  }

  /** Decoding an entry gives it back, whatever follows it. */
  lemma {:induction false} DecodeEncode(e: Dirent, rest: seq<Byte>)
    requires Encodable(e)
    ensures NameLength(Encode(e) + rest) == |e.name|
    ensures Decode(Encode(e) + rest) == e
  {
    HeaderReads(e, rest);
    NameReads(e, rest);
    ValueOf(e.ino, 8);
    ValueOf(e.off, 8);
    ValueOf(e.kind, 4);
  }

  lemma {:induction false} NameReads(e: Dirent, rest: seq<Byte>)
    ensures (Encode(e) + rest)[24..24 + |e.name|] == e.name
  {
    assert (Encode(e) + rest)[24..24 + |e.name|] == Encode(e)[24..24 + |e.name|];
  }

  lemma {:induction false} HeaderReads(e: Dirent, rest: seq<Byte>)
    requires Encodable(e)
    ensures var s := Encode(e) + rest;
            && s[..8] == LittleEndian(e.ino, 8) && s[8..16] == LittleEndian(e.off, 8)
            && s[20..24] == LittleEndian(e.kind, 4) && NameLength(s) == |e.name|
  {
    var s := Encode(e) + rest;
    assert s[..8] == LittleEndian(e.ino, 8);
    assert s[8..16] == LittleEndian(e.off, 8);
    assert s[16..20] == LittleEndian(|e.name|, 4);
    assert s[20..24] == LittleEndian(e.kind, 4);
    ValueOf(|e.name|, 4);
  }

  /** Even of an entry cut short the length can be read, if the header is whole. */
  lemma {:induction false} CutHeader(e: Dirent, m: nat)
    requires Encodable(e) && FUSE_NAME_OFFSET <= m < Size(e)
    ensures NameLength(Encode(e)[..m]) == |e.name|
  {
    HeaderReads(e, []);
    assert Encode(e) + [] == Encode(e);
    assert Encode(e)[..m][16..20] == Encode(e)[16..20];
  }

  // -------------------------------------------------------------------- pages

  function Cat(es: seq<Dirent>): seq<Byte>
  {
    if es == [] then [] else Encode(es[0]) + Cat(es[1..])
  }

  lemma CatEmpty(es: seq<Dirent>)
    ensures Cat(es[..0]) == []
  {
  }

  predicate AllEncodable(es: seq<Dirent>)
  {
    forall i :: 0 <= i < |es| ==> Encodable(es[i])
  }

  /** How many entries from the `i`-th on fit in `m` bytes. */
  function Fits(es: seq<Dirent>, i: nat, m: nat): (n: nat)
    requires i <= |es|
    ensures i + n <= |es| && (n > 0 <==> i < |es| && Size(es[i]) <= m)
    decreases |es| - i
  {
    if i == |es| || Size(es[i]) > m then 0 else 1 + Fits(es, i + 1, m - Size(es[i]))
  }

  /** What a reader makes of a page: its whole entries. */
  function Parse(page: seq<Byte>): seq<Dirent>
    decreases |page|
  {
    if |page| < FUSE_NAME_OFFSET || DirentSize(NameLength(page)) > |page| then []
    else [Decode(page)] + Parse(page[DirentSize(NameLength(page))..])
  }

  /** Of an entry that is cut short a reader makes nothing. */
  lemma {:induction false} ParseShort(e: Dirent, m: nat)
    requires Encodable(e) && m < Size(e)
    ensures Parse(Encode(e)[..m]) == []
  {
    if FUSE_NAME_OFFSET <= m { CutHeader(e, m); }
  }

  lemma {:induction false} ParseWhole(e: Dirent, rest: seq<Byte>)
    requires Encodable(e)
    ensures Parse(Encode(e) + rest) == [e] + Parse(rest)
  {
    DecodeEncode(e, rest);
    assert (Encode(e) + rest)[Size(e)..] == rest;
  }

  lemma {:induction false} CatStep(es: seq<Dirent>, i: nat)
    requires i < |es|
    ensures Cat(es[i..]) == Encode(es[i]) + Cat(es[i + 1..])
  {
    assert es[i..][1..] == es[i + 1..];
  }

  lemma {:induction false} SliceCons(es: seq<Dirent>, i: nat, j: nat)
    requires i < j <= |es|
    ensures es[i..j] == [es[i]] + es[i + 1..j]
  {
  }

  lemma {:induction false} CutPast(a: seq<Byte>, b: seq<Byte>, m: nat)
    requires |a| <= m <= |a| + |b|
    ensures (a + b)[..m] == a + b[..m - |a|]
  {
  }

  lemma {:induction false} CutWithin(a: seq<Byte>, b: seq<Byte>, m: nat)
    requires m <= |a|
    ensures (a + b)[..m] == a[..m]
  {
  }

  /** A page cut anywhere is read as the entries that are on it whole. */
  lemma {:induction false} ParseCut(es: seq<Dirent>, i: nat, m: nat)
    requires AllEncodable(es) && i <= |es| && m <= |Cat(es[i..])|
    ensures Parse(Cat(es[i..])[..m]) == es[i..i + Fits(es, i, m)]
    decreases |es| - i
  {
    hide Parse, Encode, Encodable, Decode, NameLength;
    if i < |es| {
      var size, rest := Size(es[i]), Cat(es[i + 1..]);
      CatStep(es, i);
      if m < size {
        CutWithin(Encode(es[i]), rest, m);
        ParseShort(es[i], m);
      } else {
        CutPast(Encode(es[i]), rest, m);
        ParseWhole(es[i], rest[..m - size]);
        ParseCut(es, i + 1, m - size);
        SliceCons(es, i, i + 1 + Fits(es, i + 1, m - size));
      }
    } else {
      ParseEmpty(Cat(es[i..])[..m]);
    }
  }

  lemma {:induction false} ParseEmpty(page: seq<Byte>)
    requires page == []
    ensures Parse(page) == []
  {
  }

  lemma {:induction false} CatAppend(es: seq<Dirent>, fs: seq<Dirent>)
    ensures Cat(es + fs) == Cat(es) + Cat(fs)
  {
    if es == [] {
      assert es + fs == fs;
    } else {
      assert (es + fs)[1..] == es[1..] + fs;
      CatAppend(es[1..], fs);
    }
  }

  // --------------------------------------------- a directory filled all at once

  /** One name handed to the filler, with what is known of the file. */
  datatype Item = Item(ino: nat, mode: nat, name: seq<Byte>)

  /** The type bits of st_mode. */
  function Kind(mode: nat): (k: nat)
    ensures k < 16
  {
    mode / 4096 % 16
  }

  /** The entries made of `items` from position `start` on: each one's offset is where the next one begins. */
  function Dirents(items: seq<Item>, start: nat): (es: seq<Dirent>)
    ensures |es| == |items|
  {
    if items == [] then []
    else
      var end := start + DirentSize(|items[0].name|);
      [Dirent(items[0].ino, end, Kind(items[0].mode), items[0].name)] + Dirents(items[1..], end)
  }

  lemma {:induction false} DirentsStep(item: Item, rest: seq<Item>, start: nat)
    ensures var end := start + DirentSize(|item.name|);
            && Dirents([item] + rest, start) == [Dirent(item.ino, end, Kind(item.mode), item.name)] + Dirents(rest, end)
            && |Cat(Dirents([item] + rest, start))| == DirentSize(|item.name|) + |Cat(Dirents(rest, end))|
  {
    assert ([item] + rest)[1..] == rest;
    var end := start + DirentSize(|item.name|);
    var es := Dirents([item] + rest, start);
    assert es[1..] == Dirents(rest, end);
  }

  /** The position after the entries made of `items` from `start` on. */
  function End(items: seq<Item>, start: nat): nat
  {
    if items == [] then start else End(items[1..], start + DirentSize(|items[0].name|))
  }

  lemma {:induction false} EndIs(items: seq<Item>, start: nat)
    ensures End(items, start) == start + |Cat(Dirents(items, start))|
  {
    if items != [] {
      EndIs(items[1..], start + DirentSize(|items[0].name|));
      assert items == [items[0]] + items[1..];
      DirentsStep(items[0], items[1..], start);
    }
  }

  lemma {:induction false} DirentsAppend(items: seq<Item>, more: seq<Item>, start: nat)
    ensures Dirents(items + more, start) == Dirents(items, start) + Dirents(more, End(items, start))
  {
    if items == [] {
      assert items + more == more;
    } else {
      assert (items + more)[1..] == items[1..] + more;
      DirentsAppend(items[1..], more, start + DirentSize(|items[0].name|));
    }
  }

  /** Where entry `i` begins. */
  function Position(es: seq<Dirent>, i: nat): nat
    requires i <= |es|
  {
    if i == 0 then 0 else Position(es, i - 1) + Size(es[i - 1])
  }

  lemma {:induction false} PositionIs(es: seq<Dirent>, i: nat)
    requires i <= |es|
    ensures Position(es, i) == |Cat(es[..i])|
  {
    if i == 0 {
      assert es[..0] == [];
    } else {
      PositionIs(es, i - 1);
      CatSnoc(es, i - 1);
    }
  }

  lemma {:induction false} CatSnoc(es: seq<Dirent>, i: nat)
    requires i < |es|
    ensures Cat(es[..i + 1]) == Cat(es[..i]) + Encode(es[i])
  {
    assert es[..i + 1] == es[..i] + [es[i]];
    CatAppend(es[..i], [es[i]]);
    CatOne(es[i]);
  }

  lemma {:induction false} CatOne(e: Dirent)
    ensures Cat([e]) == Encode(e)
  {
    assert [e][1..] == [];
    assert Cat([e]) == Encode(e) + [];
  }

  /** Where the entries from the second on begin. */
  lemma {:induction false} PositionShift(es: seq<Dirent>, i: nat)
    requires i < |es|
    ensures Position(es, i + 1) == Size(es[0]) + Position(es[1..], i)
  {
    if i > 0 { PositionShift(es, i - 1); }
  }

  lemma {:induction false} PositionMono(es: seq<Dirent>, i: nat, j: nat)
    requires i <= j <= |es|
    ensures Position(es, i) <= Position(es, j)
  {
    if i < j { PositionMono(es, i, j - 1); }
  }

  /** Entry by entry: same names in the same order, and offsets that are positions. */
  lemma {:induction false} DirentsAre(items: seq<Item>, start: nat, i: nat)
    requires i < |items|
    ensures var e := Dirents(items, start)[i];
            && e.name == items[i].name && e.ino == items[i].ino && e.kind == Kind(items[i].mode)
            && e.off == start + Position(Dirents(items, start), i + 1)
  {
    var es := Dirents(items, start);
    var end := start + DirentSize(|items[0].name|);
    assert es[1..] == Dirents(items[1..], end);
    PositionShift(es, i);
    if i > 0 { DirentsAre(items[1..], end, i - 1); }
  }

  predicate Small(items: seq<Item>)
  {
    && |Cat(Dirents(items, 0))| < 0x1_0000_0000
    && forall i :: 0 <= i < |items| ==> items[i].ino < 0x1_0000_0000_0000_0000
  }

  lemma {:induction false} Ranges()
    ensures Range(4) == 0x1_0000_0000 && Range(8) == 0x1_0000_0000_0000_0000
  {
    assert Range(1) == 256;
    assert Range(2) == 0x1_0000;
    assert Range(3) == 0x100_0000;
    assert Range(4) == 0x1_0000_0000;
    assert Range(5) == 0x100_0000_0000;
    assert Range(6) == 0x1_0000_0000_0000;
    assert Range(7) == 0x100_0000_0000_0000;
  }

  lemma {:induction false} PositionNext(es: seq<Dirent>, i: nat)
    requires i < |es|
    ensures Position(es, i) + Size(es[i]) == Position(es, i + 1) <= |Cat(es)|
  {
    PositionMono(es, i + 1, |es|);
    PositionIs(es, |es|);
    assert es[..|es|] == es;
  }

  lemma {:induction false} SmallEncodable(items: seq<Item>)
    requires Small(items)
    ensures AllEncodable(Dirents(items, 0))
  {
    var es := Dirents(items, 0);
    Ranges();
    forall i | 0 <= i < |es| ensures Encodable(es[i]) {
      DirentsAre(items, 0, i);
      PositionNext(es, i);
    }
  }

  /** fuse_lib_readdir on a directory that has been filled: as much as was asked for, from `off` on. */
  function Page(contents: seq<Byte>, off: nat, size: nat): seq<Byte>
  {
    if off >= |contents| then []
    else if off + size > |contents| then contents[off..]
    else contents[off..off + size]
  }

  lemma {:induction false} PageCut(before: seq<Byte>, rest: seq<Byte>, size: nat)
    ensures Page(before + rest, |before|, size) == rest[..if size < |rest| then size else |rest|]
  {
  }

  lemma {:induction false} CatSplit(es: seq<Dirent>, i: nat)
    requires i <= |es|
    ensures Cat(es) == Cat(es[..i]) + Cat(es[i..]) && |Cat(es[..i])| == Position(es, i)
  {
    CatAppend(es[..i], es[i..]);
    assert es == es[..i] + es[i..];
    PositionIs(es, i);
  }

  /** A page read from where entry `i` begins holds the entries from `i` on that fit in it. */
  lemma {:induction false} PageParses(es: seq<Dirent>, i: nat, size: nat)
    requires AllEncodable(es) && i <= |es|
    ensures Parse(Page(Cat(es), Position(es, i), size)) == es[i..i + Fits(es, i, size)]
  {
    hide Parse, Cat, Position;
    CatSplit(es, i);
    var rest := Cat(es[i..]);
    PageCut(Cat(es[..i]), rest, size);
    ParseCut(es, i, if size < |rest| then size else |rest|);
    FitsCapped(es, i, size);
  }

  lemma {:induction false} FitsCapped(es: seq<Dirent>, i: nat, m: nat)
    requires i <= |es|
    ensures m >= |Cat(es[i..])| ==> Fits(es, i, m) == Fits(es, i, |Cat(es[i..])|) == |es| - i
    decreases |es| - i
  {
    if i < |es| && m >= |Cat(es[i..])| {
      CatStep(es, i);
      FitsCapped(es, i + 1, m - Size(es[i]));
      FitsCapped(es, i + 1, |Cat(es[i..])| - Size(es[i]));
    }
  }

  /** A reader: asks for pages of the given sizes, each from the offset of the last whole entry of the one before. */
  function ReadAll(contents: seq<Byte>, off: nat, sizes: seq<nat>): seq<Dirent>
    decreases |sizes|
  {
    if sizes == [] then []
    else
      var es := Parse(Page(contents, off, sizes[0]));
      if es == [] then [] else es + ReadAll(contents, es[|es| - 1].off, sizes[1..])
  }

  /** Every request has room for the entry it comes to. */
  predicate FitsNext(es: seq<Dirent>, i: nat, sizes: seq<nat>)
    requires i <= |es|
    decreases |sizes|
  {
    sizes == [] || i == |es| || (Size(es[i]) <= sizes[0] && FitsNext(es, i + Fits(es, i, sizes[0]), sizes[1..]))
  }

  /** The index a reader has come to. */
  function Reached(es: seq<Dirent>, i: nat, sizes: seq<nat>): (j: nat)
    requires i <= |es|
    ensures i <= j <= |es|
    ensures FitsNext(es, i, sizes) ==> j == |es| || j >= i + |sizes|
    decreases |sizes|
  {
    if sizes == [] || Fits(es, i, sizes[0]) == 0 then i
    else Reached(es, i + Fits(es, i, sizes[0]), sizes[1..])
  }

  /** The offset of each entry is where the next one begins. */
  ghost predicate Chained(es: seq<Dirent>)
  {
    forall i: nat {:trigger ChainedAt(es, i)} :: i < |es| ==> ChainedAt(es, i)
  }

  ghost predicate ChainedAt(es: seq<Dirent>, i: nat)
    requires i < |es|
  {
    es[i].off == Position(es, i + 1)
  }

  /** The next request gives the entries on its page, and the others go on from the offset of the last of them. */
  lemma {:induction false} ReadStep(contents: seq<Byte>, off: nat, sizes: seq<nat>, page: seq<Dirent>, rest: seq<Dirent>)
    requires sizes != [] && page == Parse(Page(contents, off, sizes[0]))
    requires page != [] ==> rest == ReadAll(contents, page[|page| - 1].off, sizes[1..])
    ensures ReadAll(contents, off, sizes) == if page == [] then [] else page + rest
  {
    hide Parse, Page;
  }

  lemma {:induction false} SliceJoin(es: seq<Dirent>, i: nat, j: nat, k: nat)
    requires i <= j <= k <= |es|
    ensures es[i..j] + es[j..k] == es[i..k]
  {
  }

  lemma {:induction false} SliceLast(es: seq<Dirent>, i: nat, j: nat)
    requires i < j <= |es|
    ensures es[i..j][j - i - 1] == es[j - 1]
  {
  }

  /** One request from where entry `i` begins: what is on the page, and where the next one resumes. */
  lemma {:induction false} ReadPage(es: seq<Dirent>, i: nat, size: nat)
    requires AllEncodable(es) && Chained(es) && i <= |es|
    ensures var n := Fits(es, i, size);
            var page := Parse(Page(Cat(es), Position(es, i), size));
            page == es[i..i + n] && (n > 0 ==> page[n - 1].off == Position(es, i + n))
  {
    hide Parse, Cat, Page, Encode;
    PageParses(es, i, size);
    var n := Fits(es, i, size);
    if n > 0 {
      SliceLast(es, i, i + n);
      assert ChainedAt(es, i + n - 1);
    }
  }

  /** The entries on one page, and those that reading on from there gives. */
  lemma {:induction false} ReadJoin(contents: seq<Byte>, off: nat, sizes: seq<nat>, es: seq<Dirent>, i: nat,
          j: nat, k: nat, next: nat)
    requires sizes != [] && i < j <= k <= |es| && Parse(Page(contents, off, sizes[0])) == es[i..j]
    requires es[j - 1].off == next && ReadAll(contents, next, sizes[1..]) == es[j..k]
    ensures ReadAll(contents, off, sizes) == es[i..k]
  {
    hide *;
    SliceLast(es, i, j);
    SliceJoin(es, i, j, k);
    ReadStep(contents, off, sizes, es[i..j], es[j..k]);
  }

  lemma {:induction false} ReadFrom(es: seq<Dirent>, i: nat, sizes: seq<nat>)
    requires AllEncodable(es) && Chained(es) && i <= |es|
    ensures ReadAll(Cat(es), Position(es, i), sizes) == es[i..Reached(es, i, sizes)]
    decreases |sizes|
  {
    hide Parse, Cat, Page, Encode, AllEncodable, Fits, Size, Position;
    if sizes != [] {
      ReadPage(es, i, sizes[0]);
      var j := i + Fits(es, i, sizes[0]);
      if j > i {
        ReadFrom(es, j, sizes[1..]);
        assert ChainedAt(es, j - 1);
        ReadJoin(Cat(es), Position(es, i), sizes, es, i, j, Reached(es, j, sizes[1..]), Position(es, j));
      } else {
        ReadStep(Cat(es), Position(es, i), sizes, [], []);
      }
    }
  }

  /**
    Reading a directory through pages of any sizes that have room for the entry they come to gives
    every name exactly once and in order, and is done after as many requests as there are names.
   */
  lemma {:induction false} ReadsEverything(items: seq<Item>, sizes: seq<nat>)
    requires Small(items) && FitsNext(Dirents(items, 0), 0, sizes) && |sizes| >= |items|
    ensures ReadAll(Cat(Dirents(items, 0)), 0, sizes) == Dirents(items, 0)
    ensures forall i :: 0 <= i < |items| ==> Dirents(items, 0)[i].name == items[i].name
  {
    var es := Dirents(items, 0);
    SmallEncodable(items);
    forall i: nat | i < |items| ensures ChainedAt(es, i) && es[i].name == items[i].name { DirentsAre(items, 0, i); }
    assert es[..0] == [];
    ReadFrom(es, 0, sizes);
    assert es[0..Reached(es, 0, sizes)] == es;
  }

  /**
    A request gives the reader something exactly if it has room for the next entry: a smaller one looks
    like the end.
   */
  lemma {:induction false} RoomNeeded(items: seq<Item>, i: nat, size: nat)
    requires Small(items) && i < |items|
    ensures var es := Dirents(items, 0);
            Parse(Page(Cat(es), Position(es, i), size)) != [] <==> Size(es[i]) <= size
  {
    SmallEncodable(items);
    PageParses(Dirents(items, 0), i, size);
  }

  // ------------------------------------ a directory filled page by page instead

  /** One name handed to the filler with an offset of the file system's own. */
  datatype Listed = Listed(item: Item, off: nat)

  function Offered(ls: seq<Listed>): (es: seq<Dirent>)
    ensures |es| == |ls|
    ensures forall i :: 0 <= i < |ls| ==>
              es[i] == Dirent(ls[i].item.ino, ls[i].off, Kind(ls[i].item.mode), ls[i].item.name)
  {
    seq(|ls|, i requires 0 <= i < |ls| => Dirent(ls[i].item.ino, ls[i].off, Kind(ls[i].item.mode), ls[i].item.name))
  }

  /** Such a page is cut between entries: the reader gets exactly what was put on it. */
  lemma {:induction false} WholePageParses(es: seq<Dirent>, size: nat)
    requires AllEncodable(es)
    ensures Parse(Cat(es[..Fits(es, 0, size)])) == es[..Fits(es, 0, size)]
  {
    var page := es[..Fits(es, 0, size)];
    assert page[0..] == page && Cat(page)[..|Cat(page)|] == Cat(page);
    ParseCut(page, 0, |Cat(page)|);
    FitsCapped(page, 0, |Cat(page)|);
    assert page[0..|page|] == page;
  }

  /** To the reader the two ways of filling make no difference: the same names on every page. */
  lemma {:induction false} FillersAgree(items: seq<Item>, ls: seq<Listed>, i: nat, size: nat)
    requires Small(items) && i <= |items| == |ls| && AllEncodable(Offered(ls))
    requires forall j :: 0 <= j < |items| ==> ls[j].item == items[j]
    ensures var n := Fits(Dirents(items, 0), i, size);
            var one := Parse(Page(Cat(Dirents(items, 0)), Position(Dirents(items, 0), i), size));
            var two := Parse(Cat(Offered(ls[i..])[..Fits(Offered(ls[i..]), 0, size)]));
            |one| == |two| == n && forall k :: 0 <= k < n ==> one[k].name == two[k].name == items[i + k].name
  {
    hide *;
    var es, fs := Dirents(items, 0), Offered(ls[i..]);
    SmallEncodable(items);
    PageParses(es, i, size);
    RestEncodable(ls, i);
    WholePageParses(fs, size);
    forall j: nat | j < |items| ensures es[j].name == items[j].name { DirentsAre(items, 0, j); }
    FitsNames(es, i, fs, 0, size);
    PagesNames(items, es, i, Fits(es, i, size), fs);
  }

  lemma {:induction false} RestEncodable(ls: seq<Listed>, i: nat)
    requires i <= |ls| && AllEncodable(Offered(ls))
    ensures AllEncodable(Offered(ls[i..]))
  {
    forall j | 0 <= j < |ls| - i ensures Encodable(Offered(ls[i..])[j]) {
      assert Offered(ls[i..])[j] == Offered(ls)[i + j];
    }
  }

  lemma {:induction false} PagesNames(items: seq<Item>, es: seq<Dirent>, i: nat, n: nat, fs: seq<Dirent>)
    requires |es| == |items| && i + n <= |es| && |fs| == |es| - i
    requires forall j :: 0 <= j < |items| ==> es[j].name == items[j].name
    requires forall j :: i <= j < |items| ==> fs[j - i].name == items[j].name
    ensures forall k :: 0 <= k < n ==> es[i..i + n][k].name == fs[..n][k].name == items[i + k].name
  {
  }

  lemma {:induction false} FitsNames(es: seq<Dirent>, i: nat, fs: seq<Dirent>, j: nat, m: nat)
    requires i <= |es| && j <= |fs| && |es| - i == |fs| - j
    requires forall k :: i <= k < |es| ==> es[k].name == fs[k - i + j].name
    ensures Fits(es, i, m) == Fits(fs, j, m)
    decreases |es| - i
  {
    if i < |es| && Size(es[i]) <= m { FitsNames(es, i + 1, fs, j + 1, m - Size(es[i])); }
  }
}
