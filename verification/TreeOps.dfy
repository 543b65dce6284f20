/**
  The operations that restructure the inode tree (naming, unlinking, renaming a node),
  as functions from tree to tree, with what each does to counts and to path names.
 */
module TreeOps {
  import opened Wrappers
  import opened PathTree

  // ------------------------------------------------------- lookup and relink

  /** The node carrying a name in a directory, if there is one. */
  ghost function Lookup(t: Tree, l: Link): (r: Option<Ino>)
    ensures r.Some? ==> r.value in t && t[r.value].link == Some(l)
    ensures r.None? ==> forall x :: x in t ==> t[x].link != Some(l)
  {
    if x: Ino :| x in t && t[x].link == Some(l) then Some(x) else None
  }

  lemma LookupFinds(t: Tree, x: Ino)
    requires UniqueNames(t) && x in t && t[x].link.Some?
    ensures Lookup(t, t[x].link.value) == Some(x)
  {
    var r := Lookup(t, t[x].link.value);
    assert SameName(t, r.value, x);
  }

  function SetLink(t: Tree, x: Ino, l: Option<Link>): Tree
    requires x in t
  {
    t[x := t[x].(link := l)]
  }

  /** The lineage `p` once everything above `x` is replaced by `tail`. */
  function Reroute(p: seq<Ino>, x: Ino, tail: seq<Ino>): (q: seq<Ino>)
    ensures |p| > 0 ==> |q| > 0 && q[0] == p[0]
    ensures x !in p ==> q == p
  {
    if p == [] then []
    else if p[0] == x then [x] + tail
    else [p[0]] + Reroute(p[1..], x, tail)
  }

  /** `tail` is what hangs above a node linked by `l`, and does not come back to `x`. */
  ghost predicate Above(t: Tree, x: Ino, l: Option<Link>, tail: seq<Ino>)
  {
    x !in tail &&
    match l
    case None => tail == []
    case Some(k) => IsLineage(t, tail) && tail[0] == k.parent
  }

  /** Moving one node reroutes the lineages through it and no other. */
  lemma {:induction false} RelinkLineage(t: Tree, x: Ino, l: Option<Link>, tail: seq<Ino>, p: seq<Ino>)
    requires x in t && Above(t, x, l, tail) && IsLineage(t, p)
    ensures IsLineage(SetLink(t, x, l), Reroute(p, x, tail))
  {
    var t' := SetLink(t, x, l);
    if p[0] == x {
      if l.Some? {
        LineageMembers(t, tail);
        LineageFrame(t, t', tail);
        assert ([x] + tail)[1..] == tail;
      }
    } else if t[p[0]].link.Some? {
      RelinkLineage(t, x, l, tail, p[1..]);
      assert ([p[0]] + Reroute(p[1..], x, tail))[1..] == Reroute(p[1..], x, tail);
    } else {
      assert p == [p[0]];
      assert Reroute(p[1..], x, tail) == [];
    }
  }

  /** Moving a node to a free name outside its own subtree keeps the forest. */
  lemma RelinkForest(t: Tree, x: Ino, l: Option<Link>, tail: seq<Ino>)
    requires Forest(t) && x in t && x != ROOT && Above(t, x, l, tail)
    requires l.Some? ==> Lookup(t, l.value).None?
    ensures Forest(SetLink(t, x, l))
  {
    var t' := SetLink(t, x, l);
    forall y | y in t' ensures HasLineage(t', y) {
      RelinkLineage(t, x, l, tail, LineageOf(t, y));
    }
    forall y, z | SameName(t', y, z) ensures y == z {
      assert y != x && z != x ==> SameName(t, y, z);
    }
  }

  // ------------------------------------------------ linking and unlinking

  /** unhash_name: the node loses its name, and its old parent one reference. */
  ghost function Unlink(t: Tree, x: Ino): Tree
    requires Forest(t) && x in t
  {
    match t[x].link
    case None => t
    case Some(l) =>
      ParentHasLineage(t, x);
      Unref(SetLink(t, x, None), LineageOf(t, l.parent))
  }

  lemma ParentHasLineage(t: Tree, x: Ino)
    requires Forest(t) && x in t && t[x].link.Some?
    ensures HasLineage(t, t[x].link.value.parent) && t[x].link.value.parent in t
    ensures x !in LineageOf(t, t[x].link.value.parent)
    ensures t[x].link.value.parent != x
  {
    var p := LineageOf(t, x);
    var q := p[1..];
    LineageUnique(t, q, LineageOf(t, q[0]));
    forall i | 0 <= i < |q| ensures q[i] != x { LineageNoRepeat(t, p, 0, i + 1); }
  }

  /** Taking the name away moves one reference from "named child" to "surplus" at the parent. */
  lemma UnnameCounts(t: Tree, pins: multiset<Ino>, x: Ino)
    requires ExactCounts(t, pins) && x in t && t[x].link.Some?
    requires t[x].link.value.parent in t
    ensures CountedExcept(SetLink(t, x, None), pins, t[x].link.value.parent, 1)
  {
    var t' := SetLink(t, x, None);
    var d := t[x].link.value.parent;
    forall y | y in t' ensures t'[y].refctr == References(t', pins, y) + if y == d then 1 else 0 {
      assert t[y].refctr == References(t, pins, y);
      assert x in Children(t, y) <==> y == d;
      assert Children(t', y) == Children(t, y) - {x};
    }
  }

  lemma UnlinkKeeps(t: Tree, pins: multiset<Ino>, x: Ino)
    requires Forest(t) && ExactCounts(t, pins) && x in t && x != ROOT
    ensures Forest(Unlink(t, x)) && ExactCounts(Unlink(t, x), pins)
    ensures x in Unlink(t, x) && Unlink(t, x)[x] == t[x].(link := None)
    ensures forall y :: y in Unlink(t, x) && y != x ==>
              y in t && Unlink(t, x)[y] == t[y].(refctr := Unlink(t, x)[y].refctr)
  {
    if t[x].link.Some? {
      ParentHasLineage(t, x);
      var line := LineageOf(t, t[x].link.value.parent);
      var t1 := SetLink(t, x, None);
      RelinkForest(t, x, None, []);
      RelinkLineage(t, x, None, [], line);
      UnnameCounts(t, pins, x);
      UnrefRestores(t1, pins, line);
      UnrefFrame(t1, line);
    }
  }

  /** `t'` is `t` with the links of `xs` cleared and possibly other counts. */
  ghost predicate Unnamed(t: Tree, t': Tree, xs: set<Ino>)
  {
    t'.Keys == t.Keys &&
    forall y :: y in t ==>
      t'[y] == t[y].(refctr := t'[y].refctr, link := if y in xs then None else t[y].link)
  }

  /** A parent the kernel still knows is never deleted by an unlink: it just loses one reference. */
  lemma UnlinkKnownParent(t: Tree, pins: multiset<Ino>, x: Ino)
    requires Forest(t) && ExactCounts(t, pins) && x in t && x != ROOT && t[x].link.Some?
    requires var d := t[x].link.value.parent; d in t && t[d].nlookup > 0
    ensures var d := t[x].link.value.parent;
            Unlink(t, x) == SetLink(t, x, None)[d := t[d].(refctr := t[d].refctr - 1)]
    ensures Forest(Unlink(t, x)) && ExactCounts(Unlink(t, x), pins) && Unnamed(t, Unlink(t, x), {x})
  {
    ParentHasLineage(t, x);
    var d := t[x].link.value.parent;
    assert t[d].refctr == References(t, pins, d);
    assert x in Children(t, d);
    UnlinkKeeps(t, pins, x);
  }

  /** hash_name: an unnamed node gets a name, its new parent one reference more. */
  function AddLink(t: Tree, x: Ino, l: Link): Tree
    requires x in t && l.parent in t
  {
    var t1 := SetLink(t, x, Some(l));
    t1[l.parent := t1[l.parent].(refctr := t1[l.parent].refctr + 1)]
  }

  lemma AddLinkKeeps(t: Tree, pins: multiset<Ino>, x: Ino, l: Link, tail: seq<Ino>)
    requires Forest(t) && ExactCounts(t, pins) && x in t && x != ROOT && t[x].link.None?
    requires Above(t, x, Some(l), tail) && Lookup(t, l).None?
    ensures l.parent in t && Forest(AddLink(t, x, l)) && ExactCounts(AddLink(t, x, l), pins)
  {
    LineageMembers(t, tail);
    var t' := AddLink(t, x, l);
    RelinkForest(t, x, Some(l), tail);
    SameLinks(SetLink(t, x, Some(l)), t');
    AddLinkCounts(t, pins, x, l);
  }

  lemma {:induction false} AddLinkCounts(t: Tree, pins: multiset<Ino>, x: Ino, l: Link)
    requires ExactCounts(t, pins) && x in t && x != ROOT && t[x].link.None? && l.parent in t && l.parent != x
    ensures ExactCounts(AddLink(t, x, l), pins)
  {
    var t' := AddLink(t, x, l);
    forall y | y in t' ensures t'[y].refctr == References(t', pins, y) {
      assert t[y].refctr == References(t, pins, y);
      AddLinkChildren(t, x, l, y);
    }
  }

  lemma {:induction false} AddLinkChildren(t: Tree, x: Ino, l: Link, y: Ino)
    requires x in t && t[x].link.None? && l.parent in t && l.parent != x
    ensures |Children(AddLink(t, x, l), y)| == |Children(t, y)| + if y == l.parent then 1 else 0
  {
    assert x !in Children(t, y);
    assert Children(AddLink(t, x, l), y) == if y == l.parent then Children(t, y) + {x} else Children(t, y);
  }

  /** rename_node: the node displaced by the new name loses it, then the moved node gets it. */
  ghost function Rename(t: Tree, x: Ino, displaced: Option<Ino>, l: Link): Tree
    requires Forest(t) && x in t
    requires displaced.Some? ==> displaced.value in t
  {
    var t1 := if displaced.Some? then Unlink(t, displaced.value) else t;
    if Forest(t1) && x in t1 then
      var t2 := Unlink(t1, x);
      if x in t2 && l.parent in t2 then AddLink(t2, x, l) else t2
    else t1
  }

  /**
    Where a rename moves things: `tail` is the lineage of the new directory, outside the moved
    and the displaced node.
   */
  ghost predicate RenameShape(t: Tree, x: Ino, displaced: Option<Ino>, l: Link, tail: seq<Ino>)
  {
    && x in t && x != ROOT
    && Lookup(t, l) == displaced
    && IsLineage(t, tail) && tail[0] == l.parent && x !in tail
    && (displaced.Some? ==> displaced.value != x && displaced.value !in tail && displaced.value != ROOT)
  }

  /** ... and the kernel still knows both directories. */
  ghost predicate RenameReady(t: Tree, x: Ino, displaced: Option<Ino>, l: Link, tail: seq<Ino>)
  {
    && RenameShape(t, x, displaced, l, tail)
    && t[x].link.Some? && t[x].link != Some(l)
    && t[x].link.value.parent in t && t[t[x].link.value.parent].nlookup > 0
    && l.parent in t && t[l.parent].nlookup > 0
  }

  /** `t'` is `t` with `x` linked at `l`, the displaced node unlinked, and possibly other counts. */
  ghost predicate Renamed(t: Tree, t': Tree, x: Ino, displaced: Option<Ino>, l: Link)
  {
    && t'.Keys == t.Keys
    && (forall y :: y in t ==> t'[y] == t[y].(refctr := t'[y].refctr, link := t'[y].link))
    && (forall y :: y in t ==>
          t'[y].link == if y == x then Some(l) else if Some(y) == displaced then None else t[y].link)
  }

  /** After the two unlinks of a rename the new name is free and its directory still hangs where it did. */
  lemma RenameUnlinks(t: Tree, pins: multiset<Ino>, x: Ino, displaced: Option<Ino>, l: Link, tail: seq<Ino>)
    returns (t2: Tree)
    requires Forest(t) && ExactCounts(t, pins) && RenameReady(t, x, displaced, l, tail)
    ensures Forest(t2) && ExactCounts(t2, pins) && t2.Keys == t.Keys
    ensures Above(t2, x, Some(l), tail) && Lookup(t2, l).None? && t2[x].link.None?
    ensures Rename(t, x, displaced, l) == AddLink(t2, x, l)
    ensures Unnamed(t, t2, if displaced.Some? then {x, displaced.value} else {x})
    ensures displaced.Some? ==> Forest(Unlink(t, displaced.value)) && x in Unlink(t, displaced.value)
    ensures t2 == if displaced.Some? then Unlink(Unlink(t, displaced.value), x) else Unlink(t, x)
  {
    LineageMembers(t, tail);
    if displaced.Some? {
      var t1 := Unlink(t, displaced.value);
      UnlinkKnownParent(t, pins, displaced.value);
      UnlinkKnownParent(t1, pins, x);
      t2 := Unlink(t1, x);
    } else {
      UnlinkKnownParent(t, pins, x);
      t2 := Unlink(t, x);
    }
    LineageFrame(t, t2, tail);
    if Lookup(t2, l).Some? {
      LookupFinds(t, Lookup(t2, l).value);
    }
  }

  lemma RenameKeeps(t: Tree, pins: multiset<Ino>, x: Ino, displaced: Option<Ino>, l: Link, tail: seq<Ino>)
    requires Forest(t) && ExactCounts(t, pins) && RenameReady(t, x, displaced, l, tail)
    ensures var t' := Rename(t, x, displaced, l);
      && Forest(t') && ExactCounts(t', pins) && Renamed(t, t', x, displaced, l)
  {
    var t2 := RenameUnlinks(t, pins, x, displaced, l, tail);
    AddLinkKeeps(t2, pins, x, l, tail);
  }

  // --------------------------------------------------------------- path names

  /** The names along `s` (child first), outermost directory first. */
  function Names(t: Tree, s: seq<Ino>): seq<string>
  {
    if s == [] || s[0] !in t then []
    else Names(t, s[1..]) + (match t[s[0]].link case None => [] case Some(l) => [l.name])
  }

  lemma {:induction false} NamesAppend(t: Tree, a: seq<Ino>, b: seq<Ino>)
    requires forall x :: x in a ==> x in t
    ensures Names(t, a + b) == Names(t, b) + Names(t, a)
  {
    if a == [] {
      assert a + b == b;
    } else {
      assert (a + b)[1..] == a[1..] + b;
      NamesAppend(t, a[1..], b);
    }
  }

  lemma {:induction false} NamesFrame(t: Tree, t': Tree, s: seq<Ino>)
    requires forall x :: x in s ==> x in t && x in t' && t'[x].link == t[x].link
    ensures Names(t', s) == Names(t, s)
  {
    if s != [] {
      assert s[0] in s;
      forall x | x in s[1..] ensures x in s { }
      NamesFrame(t, t', s[1..]);
    }
  }

  /** The path of a node as a list of names, or None when some ancestor has been unlinked (ENOENT). */
  ghost function PathOf(t: Tree, x: Ino): Option<seq<string>>
    requires HasLineage(t, x)
  {
    var p := LineageOf(t, x);
    if p[|p| - 1] == ROOT then Some(Names(t, p)) else None
  }

  lemma PathIs(t: Tree, p: seq<Ino>)
    requires IsLineage(t, p)
    ensures HasLineage(t, p[0])
    ensures PathOf(t, p[0]) == if p[|p| - 1] == ROOT then Some(Names(t, p)) else None
  {
    LineageUnique(t, p, LineageOf(t, p[0]));
  }

  lemma {:induction false} RerouteAt(p: seq<Ino>, x: Ino, tail: seq<Ino>, i: nat)
    requires i < |p| && p[i] == x && forall j :: 0 <= j < i ==> p[j] != x
    ensures Reroute(p, x, tail) == p[..i] + [x] + tail
  {
    if i > 0 { RerouteAt(p[1..], x, tail, i - 1); }
  }

  /**
    The lineages after a rename: first those through the moved node turn, then those through the
    displaced one are cut.
   */
  lemma RenameLineage(t: Tree, t': Tree, x: Ino, displaced: Option<Ino>, l: Link, tail: seq<Ino>, p: seq<Ino>)
    requires RenameShape(t, x, displaced, l, tail) && Renamed(t, t', x, displaced, l) && IsLineage(t, p)
    ensures var q := Reroute(p, x, tail);
            IsLineage(t', if displaced.Some? then Reroute(q, displaced.value, []) else q)
  {
    RelinkLineage(t, x, Some(l), tail, p);
    var q := Reroute(p, x, tail);
    var u := SetLink(t, x, Some(l));
    if displaced.Some? {
      RelinkLineage(u, displaced.value, None, [], q);
      var r := Reroute(q, displaced.value, []);
      LineageMembers(SetLink(u, displaced.value, None), r);
      LineageFrame(SetLink(u, displaced.value, None), t', r);
    } else {
      LineageMembers(u, q);
      LineageFrame(u, t', q);
    }
  }

  /** Where node `x` sits in the path of a node below it: the names from `x` down. */
  lemma PathThrough(t: Tree, p: seq<Ino>, i: nat)
    requires IsLineage(t, p) && i < |p|
    ensures IsLineage(t, p[i..]) && p[i..][0] == p[i]
    ensures Names(t, p) == Names(t, p[i..]) + Names(t, p[..i])
  {
    LineageSuffix(t, p, i);
    LineageMembers(t, p);
    assert p == p[..i] + p[i..];
    NamesAppend(t, p[..i], p[i..]);
  }

  /** Nothing below the moved node is displaced: the target directory is not below it. */
  lemma DisplacedNotBelow(t: Tree, x: Ino, d: Ino, tail: seq<Ino>, p: seq<Ino>, i: nat)
    requires Forest(t) && IsLineage(t, p) && i < |p| && p[i] == x && d !in p[i..]
    requires d in t && t[d].link.Some? && IsLineage(t, tail) && tail[0] == t[d].link.value.parent && x !in tail
    ensures d !in p
  {
    LineageMembers(t, p);
    forall j | 0 <= j < |p| ensures p[j] != d {
      if j < i {
        LineageSuffix(t, p, j + 1);
        assert p[j + 1..][i - j - 1] == x;
        assert tail != p[j + 1..];
        if tail[0] == p[j + 1] { LineageUnique(t, tail, p[j + 1..]); }
      } else {
        assert p[i..][j - i] == p[j];
      }
    }
  }

  lemma MovedNames(t: Tree, t': Tree, x: Ino, l: Link, tail: seq<Ino>, below: seq<Ino>)
    requires x in t' && t'[x].link == Some(l)
    requires forall y :: y in below || y in tail ==> y in t && y in t' && t'[y].link == t[y].link
    ensures Names(t', below + [x] + tail) == Names(t, tail) + [l.name] + Names(t, below)
  {
    NamesAppend(t', below + [x], tail);
    NamesAppend(t', below, [x]);
    NamesFrame(t, t', below);
    NamesFrame(t, t', tail);
    assert Names(t', [x]) == [l.name];
    assert Names(t, tail) + ([l.name] + Names(t, below)) == Names(t, tail) + [l.name] + Names(t, below);
  }

  /** The path of a node below the moved one: the part below is unchanged, the part above is the new place. */
  lemma MovedPath(t: Tree, t': Tree, x: Ino, l: Link, tail: seq<Ino>, p: seq<Ino>, i: nat) returns (below: seq<string>)
    requires IsLineage(t, p) && i < |p| && p[i] == x && p[|p| - 1] == ROOT
    requires IsLineage(t, tail) && tail[|tail| - 1] == ROOT
    requires IsLineage(t', p[..i] + [x] + tail)
    requires x in t' && t'[x].link == Some(l)
    requires forall y :: y in p[..i] || y in tail ==> y in t && y in t' && t'[y].link == t[y].link
    ensures HasLineage(t', p[0]) && HasLineage(t, p[0]) && HasLineage(t, x) && HasLineage(t, tail[0])
    ensures PathOf(t, x).Some? && PathOf(t, tail[0]).Some?
    ensures PathOf(t, p[0]) == Some(PathOf(t, x).value + below)
    ensures PathOf(t', p[0]) == Some(PathOf(t, tail[0]).value + [l.name] + below)
  {
    var q := p[..i] + [x] + tail;
    below := Names(t, p[..i]);
    PathThrough(t, p, i);
    PathIs(t, p);
    PathIs(t, p[i..]);
    PathIs(t, tail);
    PathIs(t', q);
    MovedNames(t, t', x, l, tail, p[..i]);
  }

  /** Below an unlinked node there is no path any more. */
  lemma {:induction false} CutLineageEnds(p: seq<Ino>, d: Ino)
    requires d in p
    ensures var q := Reroute(p, d, []); |q| > 0 && q[|q| - 1] == d
  {
    if p[0] != d { CutLineageEnds(p[1..], d); }
  }

  /** The paths of the nodes below the moved node go from the old prefix to the new one. */
  ghost predicate PrefixMoved(t: Tree, t': Tree, x: Ino, l: Link, y: Ino)
    requires HasLineage(t, x) && HasLineage(t, y) && HasLineage(t, l.parent) && HasLineage(t', y)
  {
    && PathOf(t, x).Some? && PathOf(t, l.parent).Some?
    && exists below: seq<string> ::
         && PathOf(t, y) == Some(PathOf(t, x).value + below)
         && PathOf(t', y) == Some(PathOf(t, l.parent).value + [l.name] + below)
  }

  lemma RenameMovesBelow(t: Tree, t': Tree, x: Ino, displaced: Option<Ino>, l: Link, tail: seq<Ino>, p: seq<Ino>,
          i: nat)
    requires Forest(t) && RenameShape(t, x, displaced, l, tail) && Renamed(t, t', x, displaced, l)
    requires IsLineage(t, p) && i < |p| && p[i] == x && p[|p| - 1] == ROOT && tail[|tail| - 1] == ROOT
    requires displaced.Some? ==> displaced.value !in p[i..]
    ensures HasLineage(t, p[0]) && HasLineage(t, x) && HasLineage(t, l.parent) && HasLineage(t', p[0])
    ensures PrefixMoved(t, t', x, l, p[0])
  {
    hide Reroute, PathOf, Names, IsLineage, LineageOf, Lookup, Forest;
    RenameLineage(t, t', x, displaced, l, tail, p);
    LineageMembers(t, p);
    LineageMembers(t, tail);
    forall j | 0 <= j < i ensures p[j] != x { LineageNoRepeat(t, p, j, i); }
    RerouteAt(p, x, tail, i);
    if displaced.Some? { DisplacedNotBelow(t, x, displaced.value, tail, p, i); }
    var below := MovedPath(t, t', x, l, tail, p, i);
  }

  lemma RenameOtherPaths(t: Tree, t': Tree, x: Ino, displaced: Option<Ino>, l: Link, tail: seq<Ino>, p: seq<Ino>)
    requires RenameShape(t, x, displaced, l, tail) && Renamed(t, t', x, displaced, l)
    requires IsLineage(t, p) && x !in p
    ensures HasLineage(t, p[0]) && HasLineage(t', p[0])
    ensures PathOf(t', p[0]) == if displaced.Some? && displaced.value in p then None else PathOf(t, p[0])
  {
    hide Reroute, PathOf, Names, IsLineage, LineageOf, Lookup;
    RenameLineage(t, t', x, displaced, l, tail, p);
    LineageMembers(t, p);
    PathIs(t, p);
    if displaced.Some? && displaced.value in p {
      CutPath(t', p, displaced.value);
    } else {
      PathStays(t, t', p);
    }
  }

  /** A lineage none of whose links changed spells the same path. */
  lemma PathStays(t: Tree, t': Tree, p: seq<Ino>)
    requires IsLineage(t, p) && IsLineage(t', p)
    requires forall y :: y in p ==> y in t && y in t' && t'[y].link == t[y].link
    ensures HasLineage(t, p[0]) && HasLineage(t', p[0]) && PathOf(t', p[0]) == PathOf(t, p[0])
  {
    hide PathOf, Names, IsLineage, LineageOf;
    PathIs(t, p);
    PathIs(t', p);
    NamesFrame(t, t', p);
  }

  lemma {:induction false} CutPath(t': Tree, p: seq<Ino>, d: Ino)
    requires p != [] && d in p && d != ROOT && IsLineage(t', Reroute(p, d, []))
    ensures Reroute(p, d, [])[0] == p[0] && HasLineage(t', p[0]) && PathOf(t', p[0]) == None
  {
    CutLineageEnds(p, d);
    PathIs(t', Reroute(p, d, []));
  }

  /**
    A rename moves exactly the paths under the moved node from the old prefix to the new one;
    nodes under the displaced target lose their path; every other path stays.
   */
  lemma RenamePaths(t: Tree, t': Tree, x: Ino, displaced: Option<Ino>, l: Link, tail: seq<Ino>, y: Ino)
    requires Forest(t) && RenameShape(t, x, displaced, l, tail) && Renamed(t, t', x, displaced, l)
    requires HasLineage(t, y) && HasLineage(t, x) && PathOf(t, x).Some? && tail[|tail| - 1] == ROOT
    requires displaced.Some? ==> displaced.value !in LineageOf(t, x)
    ensures HasLineage(t, l.parent) && HasLineage(t', y)
    ensures if x in LineageOf(t, y) then PrefixMoved(t, t', x, l, y)
            else if displaced.Some? && displaced.value in LineageOf(t, y) then PathOf(t', y).None?
            else PathOf(t', y) == PathOf(t, y)
  {
    var p := LineageOf(t, y);
    LineageMembers(t, tail);
    assert l.parent in tail;
    if x in p {
      var i :| 0 <= i < |p| && p[i] == x;
      LineageSuffix(t, p, i);
      LineageUnique(t, p[i..], LineageOf(t, x));
      RenameMovesBelow(t, t', x, displaced, l, tail, p, i);
    } else {
      RenameOtherPaths(t, t', x, displaced, l, tail, p);
    }
  }
}
