/**
  The two hash tables of the library (node id to node, and parent and name to node), which differ
  only in the hash function: bucket chains that are split and merged incrementally.
  Whatever has happened to the buckets, the table is a map.
 */
module NodeTable {
  import opened Wrappers
  import opened HashLayout

  datatype Entry<K> = Entry(key: K, node: nat)

  type Chain<K> = seq<Entry<K>>

  ghost predicate NoDup<K>(c: Chain<K>)
  {
    forall i, j :: 0 <= i < j < |c| ==> c[i].key != c[j].key
  }

  /** An entry found in bucket `i` is one of the contents, and belongs in that bucket. */
  ghost predicate EntryOk<K(!new)>(contents: map<K, nat>, hash: K -> nat, size: nat, split: nat, i: nat, e: Entry<K>)
    requires size >= 2
  {
    e.key in contents && contents[e.key] == e.node && Bucket(hash(e.key), size, split) == i
  }

  /** A key of the contents is found in the bucket it belongs in. */
  ghost predicate KeyOk<K(!new)>(chains: seq<Chain<K>>, contents: map<K, nat>, hash: K -> nat, size: nat,
          split: nat, k: K)
    requires size >= 2 && k in contents && |chains| == size
  {
    Bucket(hash(k), size, split) < size && Entry(k, contents[k]) in chains[Bucket(hash(k), size, split)]
  }

  /** Every entry of `chains` is in its bucket and belongs to `contents`, and all of `contents` is there. */
  ghost predicate Placed<K(!new)>(chains: seq<Chain<K>>, contents: map<K, nat>, hash: K -> nat, size: nat, split: nat)
  {
    && TableSize(size) && size >= 2 && split <= size / 2 && |chains| == size
    && (forall i: nat, e: Entry<K> {:trigger EntryOk(contents, hash, size, split, i, e)} ::
          i < size && e in chains[i] ==> EntryOk(contents, hash, size, split, i, e))
    && (forall k: K {:trigger KeyOk(chains, contents, hash, size, split, k)} ::
          k in contents ==> KeyOk(chains, contents, hash, size, split, k))
    && (forall i: nat {:trigger NoDup(chains[i])} :: i < size ==> NoDup(chains[i]))
  }

  lemma InUpperHalf(size: nat, split: nat)
    requires TableSize(size) && split < size / 2
    ensures split + size / 2 < size && size >= 2 && size % 2 == 0
  {
    TableSizeEven(size);
  }

  /** Buckets beyond the split part of the upper half are empty. */
  lemma UnsplitEmpty<K(!new)>(chains: seq<Chain<K>>, contents: map<K, nat>, hash: K -> nat, size: nat, split: nat,
          i: nat)
    requires Placed(chains, contents, hash, size, split) && split + size / 2 <= i < size
    ensures chains[i] == []
  {
    TableSizeEven(size);
    if chains[i] != [] {
      var e := chains[i][0];
      assert e in chains[i];
      PlacedEntry(chains, contents, hash, size, split, i, e);
      BucketRange(hash(e.key), size, split);
    }
  }

  // ------------------------------------------------------- one change of layout

  /** `low` and `high` share out the entries of `c` by the bucket each belongs to after the split. */
  ghost predicate Shared<K(!new)>(c: Chain<K>, low: Chain<K>, high: Chain<K>)
  {
    && (forall e :: e in c <==> e in low || e in high)
    && NoDup(low) && NoDup(high)
    && (forall e, f :: e in low && f in high ==> e.key != f.key)
  }

  lemma PlacedEntry<K(!new)>(chains: seq<Chain<K>>, contents: map<K, nat>, hash: K -> nat, size: nat, split: nat,
                             i: nat, e: Entry<K>)
    requires Placed(chains, contents, hash, size, split) && i < size && e in chains[i]
    ensures EntryOk(contents, hash, size, split, i, e)
  {
  }

  lemma PlacedKey<K(!new)>(chains: seq<Chain<K>>, contents: map<K, nat>, hash: K -> nat, size: nat, split: nat, k: K)
    requires Placed(chains, contents, hash, size, split) && k in contents
    ensures KeyOk(chains, contents, hash, size, split, k)
  {
  }

  lemma SplitPlaced<K(!new)>(chains: seq<Chain<K>>, contents: map<K, nat>, hash: K -> nat, size: nat, split: nat,
                             low: Chain<K>, high: Chain<K>)
    requires Placed(chains, contents, hash, size, split) && split < size / 2 && split + size / 2 < size
    requires Shared(chains[split], low, high)
    requires forall e :: e in low ==> Bucket(hash(e.key), size, split + 1) == split
    requires forall e :: e in high ==> Bucket(hash(e.key), size, split + 1) == split + size / 2
    ensures Placed(chains[split := low][split + size / 2 := high], contents, hash, size, split + 1)
  {
    var up := split + size / 2;
    var chains': seq<Chain<K>> := chains[split := low][up := high];
    InUpperHalf(size, split);
    forall i: nat, e: Entry<K> | i < size && e in chains'[i] ensures EntryOk(contents, hash, size, split + 1, i, e) {
      SplitMoves(hash(e.key), size, split);
      PlacedEntry(chains, contents, hash, size, split, if i == up then split else i, e);
    }
    forall k | k in contents ensures KeyOk(chains', contents, hash, size, split + 1, k) {
      SplitMoves(hash(k), size, split);
      PlacedKey(chains, contents, hash, size, split, k);
    }
  }

  lemma ConcatNoDup<K>(low: Chain<K>, high: Chain<K>)
    requires NoDup(low) && NoDup(high)
    requires forall e: Entry<K>, f: Entry<K> :: e in low && f in high ==> e.key != f.key
    ensures NoDup(low + high)
  {
    var both: Chain<K> := low + high;
    forall i, j | 0 <= i < j < |both| ensures both[i].key != both[j].key {
      if i < |low| <= j { assert low[i] in low && high[j - |low|] in high; }
    }
  }

  lemma MergePlaced<K(!new)>(chains: seq<Chain<K>>, contents: map<K, nat>, hash: K -> nat, size: nat, split: nat)
    requires Placed(chains, contents, hash, size, split + 1) && split + 1 <= size / 2
    ensures split + size / 2 < size
    ensures Placed(chains[split := chains[split] + chains[split + size / 2]][split + size / 2 := []],
                   contents, hash, size, split)
  {
    TableSizeEven(size);
    var up := split + size / 2;
    var low, high := chains[split], chains[up];
    var chains': seq<Chain<K>> := chains[split := low + high][up := []];
    forall i: nat, e: Entry<K> | i < size && e in chains'[i] ensures EntryOk(contents, hash, size, split, i, e) {
      SplitMoves(hash(e.key), size, split);
      PlacedEntry(chains, contents, hash, size, split + 1, if i == split && e !in low then up else i, e);
    }
    forall k | k in contents ensures KeyOk(chains', contents, hash, size, split, k) {
      SplitMoves(hash(k), size, split);
      PlacedKey(chains, contents, hash, size, split + 1, k);
    }
    forall e: Entry<K>, f: Entry<K> | e in low && f in high ensures e.key != f.key {
      PlacedEntry(chains, contents, hash, size, split + 1, split, e);
      PlacedEntry(chains, contents, hash, size, split + 1, up, f);
    }
    assert NoDup(low) && NoDup(high);
    ConcatNoDup(low, high);
  }

  lemma DoublePlaced<K(!new)>(chains: seq<Chain<K>>, contents: map<K, nat>, hash: K -> nat, size: nat,
          chains': seq<Chain<K>>)
    requires Placed(chains, contents, hash, size, size / 2)
    requires |chains'| == 2 * size && chains'[..size] == chains && forall i :: size <= i < 2 * size ==> chains'[i] == []
    ensures Placed(chains', contents, hash, 2 * size, 0)
  {
    TableSizeEven(size);
    assert (2 * size) / 2 == size;
    forall i: nat, e: Entry<K> | i < 2 * size && e in chains'[i] ensures EntryOk(contents, hash, 2 * size, 0, i, e) {
      DoubledLayout(hash(e.key), size);
      assert chains'[i] == chains[i];
      PlacedEntry(chains, contents, hash, size, size / 2, i, e);
    }
    forall k | k in contents ensures KeyOk(chains', contents, hash, 2 * size, 0, k) {
      DoubledLayout(hash(k), size);
      PlacedKey(chains, contents, hash, size, size / 2, k);
    }
    forall i | 0 <= i < 2 * size ensures NoDup(chains'[i]) {
      if i < size { assert chains'[i] == chains[i]; }
    }
  }

  lemma HalvePlaced<K(!new)>(chains: seq<Chain<K>>, contents: map<K, nat>, hash: K -> nat, size: nat)
    requires Placed(chains, contents, hash, 2 * size, 0) && TableSize(size)
    ensures Placed(chains[..size], contents, hash, size, size / 2)
  {
    TableSizeEven(size);
    assert (2 * size) / 2 == size;
    var chains': seq<Chain<K>> := chains[..size];
    forall i: nat, e: Entry<K> | i < size && e in chains'[i] ensures EntryOk(contents, hash, size, size / 2, i, e) {
      DoubledLayout(hash(e.key), size);
      PlacedEntry(chains, contents, hash, 2 * size, 0, i, e);
    }
    forall k | k in contents ensures KeyOk(chains', contents, hash, size, size / 2, k) {
      DoubledLayout(hash(k), size);
      BucketRange(hash(k), size, size / 2);
      PlacedKey(chains, contents, hash, 2 * size, 0, k);
    }
    forall i: nat | i < size ensures NoDup(chains'[i]) {
      assert NoDup(chains[i]);
    }
  }

  lemma AddPlaced<K(!new)>(chains: seq<Chain<K>>, contents: map<K, nat>, hash: K -> nat, size: nat, split: nat,
          e: Entry<K>)
    requires Placed(chains, contents, hash, size, split) && e.key !in contents
    ensures size >= 2 && Bucket(hash(e.key), size, split) < size
    ensures var b := Bucket(hash(e.key), size, split);
            Placed(chains[b := [e] + chains[b]], contents[e.key := e.node], hash, size, split)
  {
    TableSizeEven(size);
    BucketRange(hash(e.key), size, split);
    var b := Bucket(hash(e.key), size, split);
    var chains': seq<Chain<K>> := chains[b := [e] + chains[b]];
    var contents' := contents[e.key := e.node];
    forall i: nat, f: Entry<K> | i < size && f in chains'[i] ensures EntryOk(contents', hash, size, split, i, f) {
      if f != e || i != b { PlacedEntry(chains, contents, hash, size, split, i, f); }
    }
    forall k | k in contents' ensures KeyOk(chains', contents', hash, size, split, k) {
      if k != e.key { PlacedKey(chains, contents, hash, size, split, k); }
    }
    var longer: Chain<K> := chains'[b];
    forall i, j | 0 <= i < j < |longer| ensures longer[i].key != longer[j].key {
      PlacedEntry(chains, contents, hash, size, split, b, chains[b][j - 1]);
      assert NoDup(chains[b]);
    }
  }

  lemma {:induction false} ChainWithout<K>(c: Chain<K>, p: nat, e: Entry<K>)
    requires p < |c| && NoDup(c)
    ensures NoDup(c[..p] + c[p + 1..])
    ensures e in c[..p] + c[p + 1..] <==> e in c && e.key != c[p].key
  {
    var c' := c[..p] + c[p + 1..];
    forall q | 0 <= q < |c'| ensures c'[q] == c[if q < p then q else q + 1] { }
    if e in c && e.key != c[p].key {
      var q :| 0 <= q < |c| && c[q] == e;
      assert c'[if q < p then q else q - 1] == e;
    }
    if e in c' {
      var q :| 0 <= q < |c'| && c'[q] == e;
      assert c[if q < p then q else q + 1] == e;
    }
  }

  lemma RemovePlaced<K(!new)>(chains: seq<Chain<K>>, contents: map<K, nat>, hash: K -> nat, size: nat, split: nat,
                              b: nat, p: nat)
    requires Placed(chains, contents, hash, size, split) && b < size && p < |chains[b]|
    ensures var k := chains[b][p].key;
            k in contents && Placed(chains[b := chains[b][..p] + chains[b][p + 1..]], contents - {k}, hash, size, split)
  {
    var c := chains[b];
    var k := c[p].key;
    var c': Chain<K> := c[..p] + c[p + 1..];
    var chains': seq<Chain<K>> := chains[b := c'];
    PlacedEntry(chains, contents, hash, size, split, b, c[p]);
    ChainWithout(c, p, c[p]);
    forall i: nat, f: Entry<K> | i < size && f in chains'[i] ensures EntryOk(contents - {k}, hash, size, split, i, f) {
      ChainWithout(c, p, f);
      PlacedEntry(chains, contents, hash, size, split, i, f);
    }
    forall m | m in contents - {k} ensures KeyOk(chains', contents - {k}, hash, size, split, m) {
      PlacedKey(chains, contents, hash, size, split, m);
      ChainWithout(c, p, Entry(m, contents[m]));
    }
  }

  // ------------------------------------------------------------------ the load

  /** The numbers a table is steered by. */
  datatype Shape = Shape(use: nat, size: nat, split: nat)

  const EMPTY := Shape(0, NODE_TABLE_MIN_SIZE, 0)

  /** No more entries than buckets in use: what growing is for. */
  predicate WithinLoad(s: Shape)
  {
    s.use <= s.size / 2 + s.split
  }

  /** Insertion: once the table is half full, each one splits a bucket, and the last split doubles the table. */
  function InsertShape(s: Shape, reallocOk: bool): Shape
  {
    var u := s.use + 1;
    if u < s.size / 2 || s.split == s.size / 2 then s.(use := u)
    else if s.split + 1 == s.size / 2 && reallocOk then Shape(u, 2 * s.size, 0)
    else Shape(u, s.size, s.split + 1)
  }

  function ReduceShape(s: Shape): Shape
  {
    if s.split == 0 && s.size / 2 >= NODE_TABLE_MIN_SIZE then Shape(s.use, s.size / 2, s.size / 2 / 2) else s
  }

  /** Merging: between one and eight buckets, when any is split. */
  predicate MergedShape(s: Shape, t: Shape)
  {
    var r := ReduceShape(s);
    t.use == r.use && t.size == r.size && (if r.split == 0 then t.split == 0 else t.split < r.split <= t.split + 8)
  }

  predicate RemoveShape(s: Shape, t: Shape)
  {
    s.use > 0 && var u := s.(use := s.use - 1); if u.use < u.size / 4 then MergedShape(u, t) else t == u
  }

  /** A table reached from the empty one by inserting (`grown[i]`: would a reallocation succeed?) and removing. */
  ghost predicate LoadRun(shapes: seq<Shape>, grown: seq<bool>)
  {
    && |shapes| == |grown| + 1 && shapes[0] == EMPTY
    && forall i :: 0 <= i < |grown| ==> shapes[i + 1] == InsertShape(shapes[i], grown[i]) || RemoveShape(shapes[i], shapes[i + 1])
  }

  lemma LoadStep(s: Shape, t: Shape, grown: bool)
    requires TableSize(s.size) && s.split <= s.size / 2 && (s.split < s.size / 2 ==> WithinLoad(s))
    requires t == InsertShape(s, grown) || RemoveShape(s, t)
    ensures TableSize(t.size) && t.split <= t.size / 2 && (t.split < t.size / 2 ==> WithinLoad(t))
    ensures grown && s.split < s.size / 2 ==> t.split < t.size / 2
  {
    TableSizeEven(s.size);
    assert (2 * s.size) / 2 == s.size;
  }

  /** In any run the table is within its load exactly if it is still growing or holds no more entries than buckets. */
  lemma {:induction false} LoadInRuns(shapes: seq<Shape>, grown: seq<bool>)
    requires LoadRun(shapes, grown)
    ensures var s := shapes[|grown|];
            && TableSize(s.size) && s.split <= s.size / 2
            && (WithinLoad(s) <==> s.split < s.size / 2 || s.use <= s.size)
            && ((forall i :: 0 <= i < |grown| ==> grown[i]) ==> s.split < s.size / 2 && WithinLoad(s))
    decreases |grown|
  {
    if grown != [] {
      var n := |grown| - 1;
      LoadInRuns(shapes[..n + 1], grown[..n]);
      TableSizeEven(shapes[n].size);
      LoadStep(shapes[n], shapes[n + 1], grown[n]);
      TableSizeEven(shapes[n + 1].size);
    }
  }

  function Inserts(s: Shape, n: nat, reallocOk: bool): Shape
  {
    if n == 0 then s else InsertShape(Inserts(s, n - 1, reallocOk), reallocOk)
  }

  /** A failed doubling is never tried again by insertions, so the load is then unbounded. */
  lemma {:induction false} FailedGrowthIsFinal(s: Shape, n: nat, reallocOk: bool)
    requires s.split == s.size / 2
    ensures Inserts(s, n, reallocOk) == s.(use := s.use + n)
  {
    if n > 0 { FailedGrowthIsFinal(s, n - 1, reallocOk); }
  }

  lemma {:induction false} FailingInserts(n: nat)
    ensures Inserts(EMPTY, n, false) == Shape(n, 8192, if n < 4096 then 0 else if n <= 8191 then n - 4095 else 4096)
  {
    if n > 0 { FailingInserts(n - 1); }
  }

  /** The first insertions without memory to grow that break the load bound: the 8193rd. */
  lemma LoadBreaksAt(n: nat)
    ensures WithinLoad(Inserts(EMPTY, n, false)) <==> n <= 8192
  {
    FailingInserts(n);
  }

  // ------------------------------------------------------------------ the table

  lemma StoredTwo<T>(before: seq<T>, after: seq<T>, i: nat, x: T, j: nat, y: T)
    requires |after| == |before| && i < |before| && j < |before| && i != j && after[i] == x && after[j] == y
    requires forall k :: 0 <= k < |before| && k != i && k != j ==> after[k] == before[k]
    ensures after == before[i := x][j := y]
  {
  }

  /** Moving one entry from the lower to the upper chain shares out the same entries. */
  lemma MoveKeeps<K(!new)>(c: Chain<K>, low: Chain<K>, high: Chain<K>, i: nat)
    requires Shared(c, low, high) && i < |low|
    ensures Shared(c, low[..i] + low[i + 1..], [low[i]] + high)
  {
    var low': Chain<K> := low[..i] + low[i + 1..];
    var high': Chain<K> := [low[i]] + high;
    assert low[i] in low;
    forall e: Entry<K> ensures e in low' <==> e in low && e.key != low[i].key { ChainWithout(low, i, e); }
    ChainWithout(low, i, low[i]);
    forall e: Entry<K> ensures e in c <==> e in low' || e in high' {
      if e in low && e.key == low[i].key {
        var q :| 0 <= q < |low| && low[q] == e;
        assert q == i;
      }
    }
    forall p, q | 0 <= p < q < |high'| ensures high'[p].key != high'[q].key {
      assert high'[q] == high[q - 1] && high[q - 1] in high;
    }
  }

  /** The walk of rehash along chain `c`: the first `i` entries of what is left of it stay where they are. */
  ghost predicate Splitting<K(!new)>(c: Chain<K>, hash: K -> nat, size: nat, split: nat, low: Chain<K>,
          high: Chain<K>, i: nat)
    requires size >= 2
  {
    && i <= |low| && Shared(c, low, high)
    && (forall j :: 0 <= j < i ==> Bucket(hash(low[j].key), size, split + 1) == split)
    && (forall e :: e in high ==> Bucket(hash(e.key), size, split + 1) == split + size / 2)
  }

  lemma SplittingStarts<K(!new)>(chains: seq<Chain<K>>, contents: map<K, nat>, hash: K -> nat, size: nat, split: nat)
    requires Placed(chains, contents, hash, size, split) && split < size / 2
    ensures split + size / 2 < size && Splitting(chains[split], hash, size, split, chains[split], chains[split + size / 2], 0)
  {
    InUpperHalf(size, split);
    UnsplitEmpty(chains, contents, hash, size, split, split + size / 2);
    assert NoDup(chains[split]);
  }

  lemma SplittingStep<K(!new)>(chains: seq<Chain<K>>, contents: map<K, nat>, hash: K -> nat, size: nat, split: nat,
                               low: Chain<K>, high: Chain<K>, i: nat)
    requires Placed(chains, contents, hash, size, split) && split < size / 2
    requires i < |low| && Splitting(chains[split], hash, size, split, low, high, i)
    ensures var b := Bucket(hash(low[i].key), size, split + 1);
            if b == split then Splitting(chains[split], hash, size, split, low, high, i + 1)
            else b == split + size / 2
                 && Splitting(chains[split], hash, size, split, low[..i] + low[i + 1..], [low[i]] + high, i)
  {
    InUpperHalf(size, split);
    assert low[i] in low;
    PlacedEntry(chains, contents, hash, size, split, split, low[i]);
    SplitMoves(hash(low[i].key), size, split);
    MoveKeeps(chains[split], low, high, i);
  }

  lemma SplittingDone<K(!new)>(chains: seq<Chain<K>>, after: seq<Chain<K>>, contents: map<K, nat>, hash: K -> nat,
                               size: nat, split: nat)
    requires Placed(chains, contents, hash, size, split) && split < size / 2 && split + size / 2 < size && |after| == size
    requires Splitting(chains[split], hash, size, split, after[split], after[split + size / 2], |after[split]|)
    requires forall k :: 0 <= k < size && k != split && k != split + size / 2 ==> after[k] == chains[k]
    ensures Placed(after, contents, hash, size, split + 1)
  {
    StoredTwo(chains, after, split, after[split], split + size / 2, after[split + size / 2]);
    SplitPlaced(chains, contents, hash, size, split, after[split], after[split + size / 2]);
  }

  /** Different keys of the contents. */
  ghost predicate Listed<K>(contents: map<K, nat>, keys: seq<K>)
  {
    (forall i, j :: 0 <= i < j < |keys| ==> keys[i] != keys[j]) && forall i :: 0 <= i < |keys| ==> keys[i] in contents
  }

  /** What is left of the contents when the keys are gone. */
  ghost function Without<K>(contents: map<K, nat>, keys: seq<K>): map<K, nat>
  {
    contents - (set k | k in keys)
  }

  lemma WithoutNone<K>(contents: map<K, nat>, keys: seq<K>)
    requires keys == []
    ensures Without(contents, keys) == contents
  {
  }

  lemma NextListed<K>(contents: map<K, nat>, keys: seq<K>)
    requires Listed(contents, keys) && keys != []
    ensures keys[0] in contents && Listed(contents - {keys[0]}, keys[1..])
  {
  }

  /** The upper chain hung behind the lower one. */
  ghost function Joined<K>(chains: seq<Chain<K>>, low: nat, up: nat): seq<Chain<K>>
    requires low < |chains| && up < |chains|
  {
    chains[low := chains[low] + chains[up]][up := []]
  }

  class Table<K(==, !new)> {
    const hash: K -> nat
    var buckets: array<Chain<K>>
    var use: nat
    var size: nat
    var split: nat
    ghost var contents: map<K, nat>
    ghost var owed: nat   // entries that are unlinked but still counted in `use`

    ghost predicate Valid()
      reads this, buckets
    {
      && buckets.Length >= size
      && Placed(buckets[..size], contents, hash, size, split)
      && use == |contents| + owed
    }

    function Numbers(): Shape
      reads this
    {
      Shape(use, size, split)
    }

    /** node_table_init */
    constructor (hash: K -> nat)
      ensures Valid() && fresh(buckets) && contents == map[] && owed == 0 && this.hash == hash
      ensures Numbers() == EMPTY
    {
      this.hash := hash;
      buckets := new Chain<K>[NODE_TABLE_MIN_SIZE](_ => []);
      use, size, split := 0, NODE_TABLE_MIN_SIZE, 0;
      contents, owed := map[], 0;
    }

    /** get_node_nocheck, lookup_node: walks one chain. */
    method Lookup(key: K) returns (r: Option<nat>)
      requires Valid()
      ensures r == if key in contents then Some(contents[key]) else None
    {
      TableSizeEven(size);
      BucketRange(hash(key), size, split);
      var b := Bucket(hash(key), size, split);
      ghost var chains := buckets[..size];
      var i := 0;
      while i < |buckets[b]|
        invariant i <= |buckets[b]|
        invariant forall j :: 0 <= j < i ==> buckets[b][j].key != key
      {
        if buckets[b][i].key == key {
          PlacedEntry(chains, contents, hash, size, split, b, buckets[b][i]);
          return Some(buckets[b][i].node);
        }
        i := i + 1;
      }
      if key in contents { PlacedKey(chains, contents, hash, size, split, key); }
      r := None;
    }

    /** node_table_resize: doubles the table, unless the reallocation fails. */
    method Resize(reallocOk: bool)
      requires Valid() && split == size / 2
      modifies this
      ensures Valid() && contents == old(contents) && use == old(use) && owed == old(owed)
      ensures if reallocOk then size == 2 * old(size) && split == 0 && fresh(buckets)
              else size == old(size) && split == old(split) && buckets == old(buckets)
    {
      if !reallocOk {
        return;
      }
      ghost var chains := buckets[..size];
      var newSize := size * 2;
      var newBuckets := new Chain<K>[newSize](_ => []);
      forall i | 0 <= i < size {
        newBuckets[i] := buckets[i];
      }
      assert newBuckets[..newSize][..size] == chains;
      DoublePlaced(chains, contents, hash, size, newBuckets[..newSize]);
      buckets, size, split := newBuckets, newSize, 0;
    }

    /**
      node_table_reduce: halves the table when it is not split at all; when the reallocation fails it
      goes on in the lower half of the old array.
     */
    method Reduce(reallocOk: bool)
      requires Valid() && split == 0
      modifies this
      ensures Valid() && contents == old(contents) && use == old(use) && owed == old(owed)
      ensures buckets == old(buckets) || fresh(buckets)
      ensures Numbers() == ReduceShape(old(Numbers()))
    {
      var newSize := size / 2;
      if newSize < NODE_TABLE_MIN_SIZE {
        return;
      }
      ghost var chains := buckets[..size];
      TableSizeEven(size);
      HalvePlaced(chains, contents, hash, newSize);
      if reallocOk {
        var newBuckets := new Chain<K>[newSize](_ => []);
        forall i | 0 <= i < newSize {
          newBuckets[i] := buckets[i];
        }
        assert newBuckets[..newSize] == chains[..newSize];
        buckets := newBuckets;
      }
      assert buckets[..newSize] == chains[..newSize];
      size, split := newSize, newSize / 2;
    }
  
    /**
      rehash_id, rehash_name: splits the next bucket, moving entries one by one to its image in the
      upper half, and doubles the table once every bucket is split.
     */
    method Rehash(reallocOk: bool)
      requires Valid()
      modifies this, buckets
      ensures Valid() && contents == old(contents) && use == old(use) && owed == old(owed)
      ensures buckets == old(buckets) || fresh(buckets)
      ensures old(use) >= 1 && old(use) >= old(size) / 2 ==>
                Numbers() == InsertShape(old(Numbers()).(use := old(use) - 1), reallocOk)
    {
      if split == size / 2 {
        return;
      }
      SplitBucket();
      if split == size / 2 {
        Resize(reallocOk);
      }
    }

    /** The loop of rehash over the chain of the bucket being split. */
    method SplitBucket()
      requires Valid() && split < size / 2
      modifies this`split, buckets
      ensures Valid() && split == old(split) + 1
    {
      ghost var chains := buckets[..size];
      var at, up := split, split + size / 2;
      SplittingStarts(chains, contents, hash, size, at);
      assert |chains| == size >= 2;
      hide Placed, Splitting, Bucket;
      split := split + 1;
      var i := 0;
      while i < |buckets[at]|
        invariant split == at + 1 && i <= |buckets[at]|
        invariant Splitting(chains[at], hash, size, at, buckets[at], buckets[up], i)
        invariant forall k :: 0 <= k < size && k != at && k != up ==> buckets[k] == chains[k]
        decreases |buckets[at]| - i
      {
        var node := buckets[at][i];
        var newHash := Bucket(hash(node.key), size, split);
        SplittingStep(chains, contents, hash, size, at, buckets[at], buckets[up], i);
        if newHash != at {
          buckets[at] := buckets[at][..i] + buckets[at][i + 1..];
          buckets[newHash] := [node] + buckets[newHash];
        } else {
          i := i + 1;
        }
      }
      SplittingDone(chains, buckets[..size], contents, hash, size, at);
    }

    /**
      hash_id, hash_name: puts a new entry at the head of its chain and splits a bucket when the table
      is half full.
     */
    method Insert(e: Entry<K>, reallocOk: bool)
      requires Valid() && e.key !in contents
      modifies this, buckets
      ensures Valid() && contents == old(contents)[e.key := e.node] && owed == old(owed)
      ensures buckets == old(buckets) || fresh(buckets)
      ensures Numbers() == InsertShape(old(Numbers()), reallocOk)
    {
      ghost var chains := buckets[..size];
      AddPlaced(chains, contents, hash, size, split, e);
      var b := Bucket(hash(e.key), size, split);
      buckets[b] := [e] + buckets[b];
      assert buckets[..size] == chains[b := buckets[b]];
      contents := contents[e.key := e.node];
      use := use + 1;
      TableSizeEven(size);
      if use >= size / 2 {
        Rehash(reallocOk);
      }
    }

    /** remerge_id, remerge_name: merges split buckets back, at most eight, stopping after one that was not empty. */
    method Remerge(reallocOk: bool)
      requires Valid()
      modifies this, buckets
      ensures Valid() && contents == old(contents) && use == old(use) && owed == old(owed)
      ensures buckets == old(buckets) || fresh(buckets)
      ensures MergedShape(old(Numbers()), Numbers())
    {
      if split == 0 {
        Reduce(reallocOk);
      }
      ghost var reduced := Numbers();
      var iter := 8;
      while split > 0 && iter > 0
        invariant Valid() && contents == old(contents) && use == old(use) && owed == old(owed)
        invariant buckets == old(buckets) || fresh(buckets)
        invariant size == reduced.size && 0 <= iter <= 8 && split == reduced.split - (8 - iter)
        decreases iter
      {
        iter := iter - 1;
        var merged := MergeBucket();
        if merged {
          break;
        }
      }
    }

    /** One round of remerge: hangs the upper chain behind the lower one. */
    method MergeBucket() returns (merged: bool)
      requires Valid() && split > 0
      modifies this`split, buckets
      ensures Valid() && split == old(split) - 1
      ensures split + size / 2 < size && (merged <==> old(buckets[..size])[split + size / 2] != [])
      ensures buckets[..size] == Joined(old(buckets[..size]), split, split + size / 2)
    {
      assert split <= size / 2;
      hide Placed;
      ghost var chains := buckets[..size];
      MergePlaced(chains, contents, hash, size, split - 1);
      split := split - 1;
      var up := split + size / 2;
      var low, high := buckets[split], buckets[up];
      merged := |high| > 0;
      if merged {
        buckets[split] := low + high;
        buckets[up] := [];
      } else {
        assert low + high == low;
      }
      StoredTwo(chains, buckets[..size], split, low + high, up, []);
    }

    /** The first half of unhash_id and unhash_name: takes the entry out of its chain. */
    method Unlink(key: K) returns (found: bool)
      requires Valid()
      modifies this`contents, this`owed, buckets
      ensures Valid() && contents == old(contents) - {key}
      ensures found <==> key in old(contents)
      ensures owed == old(owed) + if found then 1 else 0
    {
      TableSizeEven(size);
      BucketRange(hash(key), size, split);
      var b := Bucket(hash(key), size, split);
      ghost var chains := buckets[..size];
      var i := 0;
      while i < |buckets[b]|
        invariant i <= |buckets[b]|
        invariant forall j :: 0 <= j < i ==> buckets[b][j].key != key
      {
        if buckets[b][i].key == key {
          RemovePlaced(chains, contents, hash, size, split, b, i);
          buckets[b] := buckets[b][..i] + buckets[b][i + 1..];
          assert buckets[..size] == chains[b := buckets[b]];
          contents, owed := contents - {key}, owed + 1;
          return true;
        }
        i := i + 1;
      }
      if key in contents { PlacedKey(chains, contents, hash, size, split, key); }
      assert contents - {key} == contents;
      found := false;
    }

    /** The second half: the count goes down, and buckets are merged when the table is less than a quarter full. */
    method Lower(reallocOk: bool)
      requires Valid() && owed > 0
      modifies this, buckets
      ensures Valid() && contents == old(contents) && owed == old(owed) - 1
      ensures buckets == old(buckets) || fresh(buckets)
      ensures RemoveShape(old(Numbers()), Numbers())
    {
      use, owed := use - 1, owed - 1;
      if use < size / 4 {
        Remerge(reallocOk);
      }
    }

    /** unhash_id, and unhash_name of a node whose parent stays. */
    method Remove(key: K, reallocOk: bool) returns (found: bool)
      requires Valid()
      modifies this, buckets
      ensures Valid() && contents == old(contents) - {key} && owed == old(owed)
      ensures found <==> key in old(contents)
      ensures buckets == old(buckets) || fresh(buckets)
      ensures if found then RemoveShape(old(Numbers()), Numbers()) else Numbers() == old(Numbers())
    {
      found := Unlink(key);
      if found {
        Lower(reallocOk);
      }
    }

    /**
      unhash_name of a node whose parents go one after the other with it: every name is unlinked before
      the count is lowered for the first of them.
     */
    method RemoveNested(keys: seq<K>, reallocOk: seq<bool>)
      requires Valid() && Listed(contents, keys) && |reallocOk| == |keys|
      modifies this, buckets
      ensures Valid() && contents == Without(old(contents), keys) && owed == old(owed)
      ensures buckets == old(buckets) || fresh(buckets)
      ensures RemoveShapes(old(Numbers()), Numbers(), |keys|)
      decreases |keys|
    {
      hide Placed, RemoveShape, RemoveShapes, Listed, Without;
      if keys == [] {
        WithoutNone(contents, keys);
        NoShapes(Numbers());
        return;
      }
      ghost var was, s := contents, Numbers();
      NextListed(was, keys);
      var _ := Unlink(keys[0]);
      RemoveNested(keys[1..], reallocOk[1..]);
      ghost var u := Numbers();
      Lower(reallocOk[0]);
      KeysLeft(was, keys);
      MoreShapes(s, u, Numbers(), |keys| - 1);
    }
  }

  /** `n` removals one after the other. */
  ghost predicate RemoveShapes(s: Shape, t: Shape, n: nat)
    decreases n
  {
    if n == 0 then s == t else exists u :: RemoveShapes(s, u, n - 1) && RemoveShape(u, t)
  }

  lemma NoShapes(s: Shape)
    ensures RemoveShapes(s, s, 0)
  {
  }

  lemma MoreShapes(s: Shape, u: Shape, t: Shape, n: nat)
    requires RemoveShapes(s, u, n) && RemoveShape(u, t)
    ensures RemoveShapes(s, t, n + 1)
  {
  }

  lemma KeysLeft<K>(contents: map<K, nat>, keys: seq<K>)
    requires keys != []
    ensures Without(contents - {keys[0]}, keys[1..]) == Without(contents, keys)
  {
    assert keys == [keys[0]] + keys[1..];
  }

  // -------------------------------------------------------------- the two tables

  /** What a name is looked up by. */
  datatype NameKey = NameKey(parent: nat, name: string)

  /** The tables of ids and of names, as they are when the library starts. */
  method NewTables() returns (ids: Table<nat>, names: Table<NameKey>)
    ensures fresh(ids) && fresh(ids.buckets) && ids.Valid() && ids.Numbers() == EMPTY
    ensures fresh(names) && fresh(names.buckets) && names.Valid() && names.Numbers() == EMPTY
    ensures forall ino :: ids.hash(ino) == IdHash(ino)
    ensures forall k: NameKey :: names.hash(k) == NameHash(k.parent, k.name)
  {
    ids := new Table(IdHash);
    names := new Table((k: NameKey) => NameHash(k.parent, k.name));
  }
}
