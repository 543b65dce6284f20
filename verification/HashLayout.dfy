/**
  Linear hashing, as both node tables of the library use it: the table is split one bucket at a
  time as it fills and merged one bucket at a time as it empties.  Said here is where an entry
  belongs and what one split, merge, doubling or halving does to that.
 */
module HashLayout {
  const NODE_TABLE_MIN_SIZE: nat := 8192

  // ------------------------------------------------------------ hash functions

  /** id_hash before reduction: 32-bit multiplicative hashing. */
  function IdHash(ino: nat): nat
  {
    (ino % 0x1_0000_0000) * 2654435761 % 0x1_0000_0000
  }

  /** name_hash before reduction: base 31 over the bytes of the name, in 64 bits. */
  function NameHash(parent: nat, name: string): nat
  {
    if name == [] then parent % 0x1_0000_0000_0000_0000
    else (NameHash(parent, name[..|name| - 1]) * 31 + name[|name| - 1] as int % 256) % 0x1_0000_0000_0000_0000
  }

  /** The loop of name_hash. */
  method HashName(parent: nat, name: string) returns (hash: nat)
    requires parent < 0x1_0000_0000_0000_0000
    ensures hash == NameHash(parent, name)
  {
    hash := parent;
    var i := 0;
    while i < |name|
      invariant i <= |name| && hash == NameHash(parent, name[..i])
    {
      assert name[..i + 1][..i] == name[..i];
      hash := (hash * 31 + name[i] as int % 256) % 0x1_0000_0000_0000_0000;
      i := i + 1;
    }
    assert name[..i] == name;
  }

  // --------------------------------------------------------------- addressing

  /** Sizes the table can have: the minimum times a power of two. */
  predicate TableSize(n: nat)
  {
    n == NODE_TABLE_MIN_SIZE || (n > NODE_TABLE_MIN_SIZE && n % 2 == 0 && TableSize(n / 2))
  }

  lemma TableSizeEven(n: nat)
    requires TableSize(n)
    ensures n % 4 == 0 && n >= NODE_TABLE_MIN_SIZE
  {
    if n > NODE_TABLE_MIN_SIZE { TableSizeEven(n / 2); }
  }

  /** The bucket of an entry with hash `h`, the first `split` buckets having been split. */
  function Bucket(h: nat, size: nat, split: nat): nat
    requires size >= 2
  {
    var b := h % size;
    var lower := b % (size / 2);
    if lower >= split then lower else b
  }

  lemma MulStep(a: int, b: int, m: int)
    requires a < b && m >= 0
    ensures a * m + m <= b * m
  {
    assert (b - a - 1) * m >= 0;
    assert b * m == a * m + m + (b - a - 1) * m;
  }

  lemma DivModUnique(h: nat, m: nat, q: nat, r: nat)
    requires m > 0 && r < m && h == q * m + r
    ensures h % m == r
  {
    var q' := h / m;
    assert h == q' * m + h % m;
    if q < q' { MulStep(q, q', m); }
    if q' < q { MulStep(q', q, m); }
  }

  lemma DoubleMul(k: nat, m: nat)
    ensures k * (2 * m) == (2 * k) * m
    ensures (2 * k + 1) * m == (2 * k) * m + m
  {
  }

  lemma ModMod(h: nat, m: nat)
    requires m > 0
    ensures (h % (2 * m)) % m == h % m
    ensures h % (2 * m) == h % m || h % (2 * m) == h % m + m
  {
    var q, r := h / m, h % m;
    var k := q / 2;
    assert h == q * m + r;
    DoubleMul(k, m);
    if q == 2 * k {
      DivModUnique(h, 2 * m, k, r);
      DivModUnique(r, m, 0, r);
    } else {
      assert q == 2 * k + 1;
      DivModUnique(h, 2 * m, k, r + m);
      DivModUnique(r + m, m, 1, r);
    }
  }

  /** Where entries can be: every bucket above the split part of the upper half is empty. */
  lemma BucketRange(h: nat, size: nat, split: nat)
    requires size >= 2 && size % 2 == 0 && split <= size / 2
    ensures Bucket(h, size, split) < size / 2 + split
    ensures Bucket(h, size, split) % (size / 2) == h % (size / 2)
    ensures Bucket(h, size, split) == h % (size / 2) || Bucket(h, size, split) == h % (size / 2) + size / 2
  {
    var m := size / 2;
    ModMod(h, m);
    assert 2 * m == size;
    assert h % m < m;
    if h % size == h % m + m { DivModUnique(h % m + m, m, 1, h % m); } else { DivModUnique(h % m, m, 0, h % m); }
    DivModUnique(h % m, m, 0, h % m);
  }

  /** Splitting bucket `split` moves only its own entries, and only to its image in the upper half. */
  lemma SplitMoves(h: nat, size: nat, split: nat)
    requires size >= 2 && size % 2 == 0 && split < size / 2
    ensures Bucket(h, size, split + 1) != Bucket(h, size, split) ==>
      Bucket(h, size, split) == split && Bucket(h, size, split + 1) == split + size / 2
    ensures Bucket(h, size, split) != split + size / 2
    ensures Bucket(h, size, split + 1) == split + size / 2 ==> Bucket(h, size, split) == split
  {
    BucketRange(h, size, split);
    BucketRange(h, size, split + 1);
    ModMod(h, size / 2);
    assert 2 * (size / 2) == size;
  }

  /** Fully split at one size is the same layout as not split at all at twice the size. */
  lemma DoubledLayout(h: nat, size: nat)
    requires size >= 2 && size % 2 == 0
    ensures Bucket(h, 2 * size, 0) == Bucket(h, size, size / 2)
  {
    ModMod(h, size);
    assert (2 * size) / 2 == size;
  }
}
