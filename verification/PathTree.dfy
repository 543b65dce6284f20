/**
  The inode tree of the high-level library: nodes with a parent link, a name and a
  reference count.  A node is freed the moment its count drops to zero, which drops the
  reference it held on its parent, and so on upwards.
 */
module PathTree {
  import opened Wrappers

  type Ino = nat
  const ROOT: Ino := 1

  /** `name` and `parent` of a node are set together and cleared together. */
  datatype Link = Link(parent: Ino, name: string)

  /** The root has no link (its parent pointer is null); an unlinked node has none either. */
  datatype Node = Node(link: Option<Link>, refctr: int, nlookup: nat, treelock: int)

  /** The live nodes, keyed by node id: the contents of the id table. */
  type Tree = map<Ino, Node>

  // ---------------------------------------------------------------- lineages

  /** `p` lists a node, its parent, its parent's parent, ... up to a node with no link. */
  ghost predicate IsLineage(t: Tree, p: seq<Ino>)
  {
    |p| > 0 && p[0] in t &&
    match t[p[0]].link
    case None => |p| == 1
    case Some(l) => |p| > 1 && p[1] == l.parent && IsLineage(t, p[1..])
  }

  ghost predicate HasLineage(t: Tree, x: Ino)
  {
    exists p: seq<Ino> :: IsLineage(t, p) && p[0] == x
  }

  ghost function LineageOf(t: Tree, x: Ino): (p: seq<Ino>)
    requires HasLineage(t, x)
    ensures IsLineage(t, p) && p[0] == x
  {
    var p: seq<Ino> :| IsLineage(t, p) && p[0] == x;
    p
  }

  lemma {:induction false} LineageUnique(t: Tree, p: seq<Ino>, q: seq<Ino>)
    requires IsLineage(t, p) && IsLineage(t, q) && p[0] == q[0]
    ensures p == q
  {
    if t[p[0]].link.Some? {
      LineageUnique(t, p[1..], q[1..]);
      assert p == [p[0]] + p[1..] && q == [q[0]] + q[1..];
    } else {
      assert p == [p[0]] && q == [q[0]];
    }
  }

  lemma {:induction false} LineageSuffix(t: Tree, p: seq<Ino>, i: nat)
    requires IsLineage(t, p) && i < |p|
    ensures IsLineage(t, p[i..])
    ensures p[i] in t
    ensures i + 1 < |p| ==> t[p[i]].link.Some? && t[p[i]].link.value.parent == p[i + 1]
    ensures i + 1 == |p| ==> t[p[i]].link.None?
  {
    if i == 0 {
      assert p[0..] == p;
    } else {
      LineageSuffix(t, p[1..], i - 1);
      assert p[1..][i - 1..] == p[i..];
    }
  }

  /** No node is its own ancestor. */
  lemma LineageNoRepeat(t: Tree, p: seq<Ino>, i: nat, j: nat)
    requires IsLineage(t, p) && i < j < |p|
    ensures p[i] != p[j]
  {
    if p[i] == p[j] {
      LineageSuffix(t, p, i);
      LineageSuffix(t, p, j);
      LineageUnique(t, p[i..], p[j..]);
    }
  }

  /** Every ancestor is live, and only the last one can be without a link. */
  lemma LineageMembers(t: Tree, p: seq<Ino>)
    requires IsLineage(t, p)
    ensures forall x :: x in p ==> x in t && HasLineage(t, x)
    ensures forall i :: 0 <= i < |p| - 1 ==> t[p[i]].link.Some? && t[p[i]].link.value.parent == p[i + 1]
    ensures t[p[|p| - 1]].link.None?
  {
    forall x | x in p ensures x in t && HasLineage(t, x) {
      var i :| 0 <= i < |p| && p[i] == x;
      LineageSuffix(t, p, i);
    }
    forall i | 0 <= i < |p| - 1 ensures t[p[i]].link.Some? && t[p[i]].link.value.parent == p[i + 1] {
      LineageSuffix(t, p, i);
    }
    LineageSuffix(t, p, |p| - 1);
  }

  /** A lineage survives every change that leaves its own links alone. */
  lemma {:induction false} LineageFrame(t: Tree, t': Tree, p: seq<Ino>)
    requires IsLineage(t, p)
    requires forall x :: x in p ==> x in t && x in t' && t'[x].link == t[x].link
    ensures IsLineage(t', p)
  {
    assert p[0] in p;
    if t[p[0]].link.Some? {
      forall x | x in p[1..] ensures x in p { }
      LineageFrame(t, t', p[1..]);
    }
  }

  // -------------------------------------------------------------- invariants

  ghost predicate SameName(t: Tree, x: Ino, y: Ino)
  {
    x in t && y in t && t[x].link.Some? && t[x].link == t[y].link
  }

  ghost predicate UniqueNames(t: Tree)
  {
    forall x, y {:trigger SameName(t, x, y)} :: SameName(t, x, y) ==> x == y
  }

  /** The nodes form a forest whose names identify them, with the root at the top of one tree. */
  ghost predicate Forest(t: Tree)
  {
    && ROOT in t && t[ROOT].link.None? && t[ROOT].nlookup > 0
    && UniqueNames(t)
    && forall x {:trigger HasLineage(t, x)} :: x in t ==> HasLineage(t, x)
  }

  ghost function Children(t: Tree, x: Ino): set<Ino>
  {
    set c | c in t && t[c].link.Some? && t[c].link.value.parent == x
  }

  /** What the count of `x` should be: its named children, one for the kernel, one per "." lookup. */
  ghost function References(t: Tree, pins: multiset<Ino>, x: Ino): nat
    requires x in t
  {
    |Children(t, x)| + (if t[x].nlookup > 0 then 1 else 0) + pins[x]
  }

  /** Every count is exact and positive, except that `x` has `surplus` too many. */
  ghost predicate CountedExcept(t: Tree, pins: multiset<Ino>, x: Ino, surplus: nat)
  {
    && (forall y :: y in pins ==> y in t)
    && (forall y {:trigger References(t, pins, y)} :: y in t ==>
          t[y].refctr == References(t, pins, y) + if y == x then surplus else 0)
    && (forall y :: y in t ==> t[y].refctr > 0)
  }

  /** Every count is exact and positive: a node is in the table iff something refers to it. */
  ghost predicate ExactCounts(t: Tree, pins: multiset<Ino>)
  {
    && (forall y :: y in pins ==> y in t)
    && (forall y {:trigger References(t, pins, y)} :: y in t ==> t[y].refctr == References(t, pins, y))
    && (forall y :: y in t ==> t[y].refctr > 0)
  }

  // ------------------------------------------------------- the delete cascade

  /** Drops one reference on `line[0]`, whose lineage is `line`, deleting what becomes unreferenced. */
  function Unref(t: Tree, line: seq<Ino>): Tree
  {
    if line == [] || line[0] !in t then t
    else
      var n := t[line[0]];
      if n.refctr > 1 then t[line[0] := n.(refctr := n.refctr - 1)]
      else Unref(t - {line[0]}, line[1..])
  }

  /** How many nodes at the start of `line` are held by a single reference. */
  function CascadeLength(t: Tree, line: seq<Ino>): (k: nat)
    ensures k <= |line|
  {
    if line == [] || line[0] !in t || t[line[0]].refctr > 1 then 0
    else 1 + CascadeLength(t, line[1..])
  }

  ghost function Members(line: seq<Ino>): set<Ino>
  {
    set x | x in line
  }

  /** The tree without the first `k` nodes of `line`, and with one reference less on the next one. */
  ghost function Cascaded(t: Tree, line: seq<Ino>, k: nat): Tree
    requires k <= |line| && forall x :: x in line ==> x in t
  {
    if k == |line| then t - Members(line)
    else (t - Members(line[..k]))[line[k] := t[line[k]].(refctr := t[line[k]].refctr - 1)]
  }

  lemma CascadedNone(t: Tree, line: seq<Ino>)
    requires forall x :: x in line ==> x in t
    ensures Cascaded(t, line, 0) ==
              if line == [] then t else t[line[0] := t[line[0]].(refctr := t[line[0]].refctr - 1)]
  {
    assert Members(line[..0]) == {};
  }

  lemma CascadedStep(t: Tree, line: seq<Ino>, k: nat)
    requires k < |line| && (forall x :: x in line ==> x in t)
    requires forall x :: x in line[1..] ==> x in t - {line[0]}
    ensures Cascaded(t - {line[0]}, line[1..], k) == Cascaded(t, line, k + 1)
  {
    MembersSplit(line, k + 1);
    assert t - {line[0]} - Members(line[1..][..k]) == t - Members(line[..k + 1]);
    if k + 1 == |line| { assert line[1..][..k] == line[1..]; }
  }

  /** The cascade deletes exactly the ancestors held by a single reference, up to the first that is not. */
  lemma {:induction false} UnrefDeletesExactly(t: Tree, line: seq<Ino>)
    requires forall x :: x in line ==> x in t
    requires forall i, j :: 0 <= i < j < |line| ==> line[i] != line[j]
    ensures var k := CascadeLength(t, line);
            && (forall i :: 0 <= i < k ==> t[line[i]].refctr <= 1)
            && (k < |line| ==> t[line[k]].refctr > 1)
            && Unref(t, line) == Cascaded(t, line, k)
  {
    hide Cascaded;
    if line == [] || t[line[0]].refctr > 1 {
      CascadedNone(t, line);
    } else {
      var rest := line[1..];
      RestOfLine(t, line);
      UnrefDeletesExactly(t - {line[0]}, rest);
      var k := CascadeLength(t, rest);
      CascadedStep(t, line, k);
      forall i | 0 <= i < k + 1 ensures t[line[i]].refctr <= 1 {
        if i > 0 { assert rest[i - 1] == line[i]; }
      }
    }
  }

  lemma MembersSplit(line: seq<Ino>, k: nat)
    requires 0 < k <= |line|
    ensures Members(line[..k]) == {line[0]} + Members(line[1..][..k - 1])
    ensures k == |line| ==> line[..k] == line && line[1..][..k - 1] == line[1..]
  {
    assert line[..k] == [line[0]] + line[1..][..k - 1];
  }

  lemma RestOfLine(t: Tree, line: seq<Ino>)
    requires line != [] && forall x :: x in line ==> x in t
    requires forall i, j :: 0 <= i < j < |line| ==> line[i] != line[j]
    ensures var t1 := t - {line[0]};
      && (forall x :: x in line[1..] ==> x in t1 && t1[x] == t[x])
      && CascadeLength(t1, line[1..]) == CascadeLength(t, line[1..])
  {
    var t1 := t - {line[0]};
    forall x | x in line[1..] ensures x in t1 && t1[x] == t[x] {
      var i :| 0 <= i < |line[1..]| && line[1..][i] == x;
      assert line[i + 1] == x;
    }
    CascadeFrame(t, t1, line[1..]);
  }

  lemma {:induction false} CascadeFrame(t: Tree, t': Tree, line: seq<Ino>)
    requires forall x :: x in line ==> x in t && x in t' && t'[x] == t[x]
    ensures CascadeLength(t', line) == CascadeLength(t, line)
  {
    if line != [] {
      assert line[0] in line;
      forall x | x in line[1..] ensures x in line { }
      CascadeFrame(t, t', line[1..]);
    }
  }

  lemma LineageWithoutLeaf(t: Tree, x: Ino, p: seq<Ino>)
    requires Children(t, x) == {} && IsLineage(t, p) && p[0] != x
    ensures IsLineage(t - {x}, p)
  {
    LineageMembers(t, p);
    forall i | 0 <= i < |p| ensures p[i] != x {
      if i > 0 { assert p[i - 1] in Children(t, p[i]); }
    }
    LineageFrame(t, t - {x}, p);
  }

  /** A node nobody names can leave the forest without disturbing any other lineage. */
  lemma RemoveLeaf(t: Tree, x: Ino)
    requires Forest(t) && x != ROOT && Children(t, x) == {}
    ensures Forest(t - {x})
  {
    var t' := t - {x};
    forall y | y in t' ensures HasLineage(t', y) {
      LineageWithoutLeaf(t, x, LineageOf(t, y));
    }
    forall y, z | SameName(t', y, z) ensures y == z { assert SameName(t, y, z); }
  }

  /** Removing a node takes one reference off its parent and leaves all other counts as they were. */
  lemma RemoveLeafCounts(t: Tree, pins: multiset<Ino>, x: Ino)
    requires x in t && CountedExcept(t, pins, x, 1) && t[x].refctr <= 1
    requires t[x].link.Some? ==> t[x].link.value.parent != x
    ensures Children(t, x) == {} && t[x].nlookup == 0 && pins[x] == 0
    ensures match t[x].link
            case None => ExactCounts(t - {x}, pins)
            case Some(l) => CountedExcept(t - {x}, pins, l.parent, 1)
  {
    assert t[x].refctr == References(t, pins, x) + 1;
    var t1 := t - {x};
    forall y | y in t1
      ensures t[y].refctr == References(t1, pins, y) +
                if t[x].link.Some? && t[x].link.value.parent == y then 1 else 0
    {
      assert t[y].refctr == References(t, pins, y);
      assert x in Children(t, y) <==> t[x].link.Some? && t[x].link.value.parent == y;
      assert Children(t1, y) == Children(t, y) - {x};
    }
  }

  lemma DropSurplus(t: Tree, pins: multiset<Ino>, x: Ino)
    requires x in t && CountedExcept(t, pins, x, 1) && t[x].refctr > 1
    ensures ExactCounts(t[x := t[x].(refctr := t[x].refctr - 1)], pins)
  {
    var t' := t[x := t[x].(refctr := t[x].refctr - 1)];
    forall y | y in t' ensures t'[y].refctr == References(t', pins, y) {
      assert t[y].refctr == References(t, pins, y) + if y == x then 1 else 0;
      assert Children(t', y) == Children(t, y);
    }
  }

  /** Dropping a reference that was one too many restores exact counts and a forest. */
  lemma {:induction false} UnrefRestores(t: Tree, pins: multiset<Ino>, line: seq<Ino>)
    requires Forest(t) && IsLineage(t, line)
    requires CountedExcept(t, pins, line[0], 1)
    ensures Forest(Unref(t, line)) && ExactCounts(Unref(t, line), pins)
    decreases |line|
  {
    var x := line[0];
    if t[x].refctr > 1 {
      DropSurplus(t, pins, x);
      SameLinks(t, Unref(t, line));
    } else {
      var t1 := t - {x};
      assert Unref(t, line) == Unref(t1, line[1..]);
      assert t[x].link.Some? ==> line[1] != x by {
        if t[x].link.Some? { LineageNoRepeat(t, line, 0, 1); }
      }
      RemoveLeafCounts(t, pins, x);
      RemoveLeaf(t, x);
      if t[x].link.Some? {
        LineageWithoutLeaf(t, x, line[1..]);
        UnrefRestores(t1, pins, line[1..]);
      }
    }
  }

  /** The cascade changes nothing but the one count where it stops. */
  lemma {:induction false} UnrefFrame(t: Tree, line: seq<Ino>)
    ensures Unref(t, line).Keys <= t.Keys
    ensures forall x :: x in t && x !in line ==> x in Unref(t, line) && Unref(t, line)[x] == t[x]
    ensures forall x :: x in Unref(t, line) ==>
              Unref(t, line)[x] == t[x].(refctr := Unref(t, line)[x].refctr)
  {
    if line != [] && line[0] in t && t[line[0]].refctr <= 1 {
      UnrefFrame(t - {line[0]}, line[1..]);
      forall x | x in line[1..] ensures x in line { }
    }
  }

  /** The cascade neither sees nor touches a node off its line. */
  lemma {:induction false} UnrefIgnores(t: Tree, x: Ino, n: Node, line: seq<Ino>)
    requires x !in line
    ensures Unref(t[x := n], line) == Unref(t, line)[x := n]
    ensures Unref(t - {x}, line) == Unref(t, line) - {x}
  {
    if line == [] || line[0] !in t {
    } else if t[line[0]].refctr > 1 {
      assert t[x := n][line[0] := t[line[0]]] == t[x := n];
    } else {
      var y := line[0];
      UnrefIgnores(t - {y}, x, n, line[1..]);
      assert t[x := n] - {y} == (t - {y})[x := n];
      assert (t - {x}) - {y} == (t - {y}) - {x};
    }
  }

  /** Changing counts, lookups or locks keeps the shape of the forest. */
  lemma SameLinks(t: Tree, t': Tree)
    requires t.Keys == t'.Keys && forall x :: x in t ==> t'[x].link == t[x].link
    requires Forest(t) && t'[ROOT].nlookup > 0
    ensures Forest(t')
  {
    forall x | x in t' ensures HasLineage(t', x) {
      var p := LineageOf(t, x);
      LineageMembers(t, p);
      LineageFrame(t, t', p);
    }
    forall y, z | SameName(t', y, z) ensures y == z { assert SameName(t, y, z); }
  }
}
