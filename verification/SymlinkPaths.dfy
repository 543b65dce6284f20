/**
  Paths as the subdir module reads them: components between slashes, and the places that
  components lead to.
 */
module SymlinkPaths {
  const SLASH: char := '/'

  /** Without leading slashes. */
  function Skip(s: string): (r: string)
    ensures |r| <= |s| && (r != [] ==> r[0] != SLASH)
  {
    if s != [] && s[0] == SLASH then Skip(s[1..]) else s
  }

  /** Up to the first slash or the end. */
  function Word(s: string): (w: string)
    ensures |w| <= |s| && (s != [] && s[0] != SLASH ==> |w| > 0)
  {
    if s == [] || s[0] == SLASH then [] else [s[0]] + Word(s[1..])
  }

  /** The components of a path. */
  function Comps(s: string): seq<string>
    decreases |s|
  {
    var r := Skip(s);
    if r == [] then [] else [Word(r)] + Comps(r[|Word(r)|..])
  }

  lemma {:induction false} SkipTwice(s: string)
    ensures Comps(Skip(s)) == Comps(s)
  {
    SkipStays(Skip(s));
  }

  lemma {:induction false} SkipStays(s: string)
    requires s == [] || s[0] != SLASH
    ensures Skip(s) == s
  {
  }

  lemma {:induction false} WordIs(s: string, n: nat)
    requires n <= |s| && SLASH !in s[..n] && (n == |s| || s[n] == SLASH)
    ensures Word(s) == s[..n]
  {
    if n > 0 {
      assert s[0] == s[..n][0];
      assert s[1..][..n - 1] == s[..n][1..];
      WordIs(s[1..], n - 1);
      assert s[..n] == [s[0]] + s[1..][..n - 1];
    }
  }

  /** The last component aside: the directory of a path. */
  function Directory(path: string): seq<string>
  {
    var cs := Comps(path);
    if cs == [] then [] else cs[..|cs| - 1]
  }

  // ------------------------------------------------------------------ places

  /** One step of resolving: "." stays, ".." goes up, at the root nowhere. */
  function Go(place: seq<string>, c: string): seq<string>
  {
    if c == "." then place
    else if c == ".." then (if place == [] then [] else place[..|place| - 1])
    else place + [c]
  }

  function Resolve(place: seq<string>, cs: seq<string>): seq<string>
    decreases |cs|
  {
    if cs == [] then place else Resolve(Go(place, cs[0]), cs[1..])
  }

  /** Where a link text leads from a directory. */
  function Follow(place: seq<string>, link: string): seq<string>
  {
    Resolve(if link != [] && link[0] == SLASH then [] else place, Comps(link))
  }

  predicate Plain(cs: seq<string>)
  {
    forall i :: 0 <= i < |cs| ==> cs[i] != "." && cs[i] != ".."
  }

  lemma {:induction false} ResolveAppend(place: seq<string>, cs: seq<string>, ds: seq<string>)
    ensures Resolve(place, cs + ds) == Resolve(Resolve(place, cs), ds)
    decreases |cs|
  {
    if cs == [] {
      assert cs + ds == ds;
    } else {
      assert (cs + ds)[1..] == cs[1..] + ds;
      ResolveAppend(Go(place, cs[0]), cs[1..], ds);
    }
  }

  /** Plain names lead straight down. */
  lemma {:induction false} ResolvePlain(place: seq<string>, cs: seq<string>)
    requires Plain(cs)
    ensures Resolve(place, cs) == place + cs
    decreases |cs|
  {
    if cs == [] {
      assert place + cs == place;
    } else {
      ResolvePlain(place + [cs[0]], cs[1..]);
      assert place + [cs[0]] + cs[1..] == place + cs;
    }
  }

  function Ups(n: nat): (cs: seq<string>)
    ensures |cs| == n
  {
    if n == 0 then [] else [".."] + Ups(n - 1)
  }

  lemma {:induction false} ResolveUps(place: seq<string>, below: seq<string>)
    ensures Resolve(place + below, Ups(|below|)) == place
  {
    if below == [] {
      assert place + below == place;
    } else {
      var n := |below| - 1;
      assert (place + below)[..|place + below| - 1] == place + below[..n];
      assert Ups(|below|)[1..] == Ups(n);
      ResolveUps(place, below[..n]);
    }
  }

  // -------------------------------------------------------------- strip_common

  /** The number of characters in which two texts agree before a slash, an end or a difference. */
  function Matching(s: string, t: string): (m: nat)
    ensures m <= |s| && m <= |t|
  {
    if s == [] || t == [] || s[0] != t[0] || s[0] == SLASH then 0 else 1 + Matching(s[1..], t[1..])
  }

  lemma {:induction false} MatchingMeans(s: string, t: string)
    ensures var m := Matching(s, t);
            && s[..m] == t[..m] && SLASH !in s[..m]
            && (m < |s| && m < |t| && s[m] == t[m] ==> s[m] == SLASH)
  {
    var m := Matching(s, t);
    if m > 0 {
      MatchingMeans(s[1..], t[1..]);
      assert s[..m] == [s[0]] + s[1..][..m - 1] && t[..m] == [t[0]] + t[1..][..m - 1];
    }
  }

  /** The condition of the loop: both go on with a slash, or one does and the other is at its end. */
  predicate GoesOn(s: string, t: string)
  {
    || (s != [] && t != [] && s[0] == t[0])
    || (s == [] && t != [] && t[0] == SLASH)
    || (t == [] && s != [] && s[0] == SLASH)
  }

  /** strip_common, and how many components it has stripped. */
  function Strip(s: string, t: string): (r: (string, string, nat))
    ensures |r.0| <= |s| && |r.1| <= |t|
    decreases |s| + |t|
  {
    var s1, t1 := Skip(s), Skip(t);
    var m := Matching(s1, t1);
    if GoesOn(s1[m..], t1[m..]) then
      assert m > 0;
      var (x, y, k) := Strip(s1[m..], t1[m..]);
      (x, y, k + 1)
    else (s1, t1, 0)
  }

  lemma {:induction false} CompsStep(s: string, n: nat)
    requires s != [] && s[0] != SLASH && n <= |s| && SLASH !in s[..n] && (n == |s| || s[n] == SLASH)
    ensures Comps(s) == [s[..n]] + Comps(s[n..])
  {
    WordIs(s, n);
    SkipStays(s);
  }

  /** One round of the loop strips one component, the same from both. */
  lemma {:induction false} RoundStrips(s: string, t: string)
    requires var m := Matching(Skip(s), Skip(t)); GoesOn(Skip(s)[m..], Skip(t)[m..])
    ensures var m := Matching(Skip(s), Skip(t));
            var c := Skip(s)[..m];
            m > 0 && Comps(s) == [c] + Comps(Skip(s)[m..]) && Comps(t) == [c] + Comps(Skip(t)[m..])
  {
    var s1, t1 := Skip(s), Skip(t);
    var m := Matching(s1, t1);
    MatchingMeans(s1, t1);
    SkipTwice(s);
    SkipTwice(t);
    if m < |s1| { assert s1[m..][0] == s1[m]; }
    if m < |t1| { assert t1[m..][0] == t1[m]; }
    CompsStep(s1, m);
    CompsStep(t1, m);
  }

  /** What is stripped from both are equal components, and nothing else is. */
  lemma {:induction false} StripMeans(s: string, t: string)
    ensures var (x, y, k) := Strip(s, t);
            && k <= |Comps(s)| && k <= |Comps(t)| && Comps(s)[..k] == Comps(t)[..k]
            && Comps(x) == Comps(s)[k..] && Comps(y) == Comps(t)[k..]
    decreases |s| + |t|
  {
    hide Skip, Matching, GoesOn, Comps;
    var s1, t1 := Skip(s), Skip(t);
    var m := Matching(s1, t1);
    if GoesOn(s1[m..], t1[m..]) {
      RoundStrips(s, t);
      StripMeans(s1[m..], t1[m..]);
      PrefixOnto(s1[..m], Comps(s1[m..]), Comps(t1[m..]), Strip(s1[m..], t1[m..]).2);
    } else {
      SkipTwice(s);
      SkipTwice(t);
    }
  }

  lemma {:induction false} PrefixOnto(c: string, cs: seq<string>, ds: seq<string>, k: nat)
    requires k <= |cs| && k <= |ds| && cs[..k] == ds[..k]
    ensures ([c] + cs)[..k + 1] == ([c] + ds)[..k + 1] && ([c] + cs)[k + 1..] == cs[k..] && ([c] + ds)[k + 1..] == ds[k..]
  {
    assert ([c] + cs)[..k + 1] == [c] + cs[..k] && ([c] + ds)[..k + 1] == [c] + ds[..k];
  }

  /** Stripping is as long as it can be, except that equal texts keep their last component. */
  lemma {:induction false} StripIsMaximal(s: string, t: string)
    ensures var (x, y, k) := Strip(s, t);
            x != [] && y != [] && Word(x) == Word(y) ==> x == y == Word(x)
    decreases |s| + |t|
  {
    var s1, t1 := Skip(s), Skip(t);
    var m := Matching(s1, t1);
    if GoesOn(s1[m..], t1[m..]) {
      RoundStrips(s, t);
      StripIsMaximal(s1[m..], t1[m..]);
    } else if s1 != [] && t1 != [] && Word(s1) == Word(t1) {
      SameWord(s1, t1);
    }
  }

  /** If two texts begin with the same component, either both are that component or the loop goes on behind it. */
  lemma {:induction false} SameWord(s: string, t: string)
    requires Word(s) == Word(t)
    ensures var m := Matching(s, t);
            m == |Word(s)| && (GoesOn(s[m..], t[m..]) || s == t == Word(s))
  {
    if s != [] && s[0] != SLASH {
      assert t != [] && t[0] == Word(t)[0] == s[0];
      assert Word(s)[1..] == Word(s[1..]) && Word(t)[1..] == Word(t[1..]);
      SameWord(s[1..], t[1..]);
      var m := Matching(s[1..], t[1..]);
      assert s[m + 1..] == s[1..][m..] && t[m + 1..] == t[1..][m..];
    } else {
      assert t == [] || t[0] == SLASH;
    }
  }

  // ---------------------------------------------------------- transform_symlink

  function Dots(n: nat): (d: string)
    ensures |d| == 3 * n
  {
    if n == 0 then "" else "../" + Dots(n - 1)
  }

  /** The relative text: up out of the `n` components that are the path's own, then down along `l`. */
  function Relative(l: string, n: nat): string
    requires n > 0
  {
    if l == [] && n == 1 then "." else Dots(n - 1) + l
  }

  /** Both texts are absolute, the target is below the base, the path is not above it, and the new text fits. */
  predicate Transforms(base: string, path: string, target: string, size: nat)
  {
    && target != [] && target[0] == SLASH && base != [] && base[0] == SLASH
    && var (l, p, k) := Strip(target, path);
       var n := |Comps(p)|;
       |target| - |l| >= |base| && n > 0 && (n - 1) * 3 + |l| + 2 <= size
  }

  /** The text transform_symlink leaves in a buffer of `size` characters that held `target`. */
  function Transformed(base: string, path: string, target: string, size: nat): string
  {
    if Transforms(base, path, target, size) then
      var (l, p, k) := Strip(target, path);
      Relative(l, |Comps(p)|)
    else target
  }

  lemma {:induction false} CompsDots(n: nat, l: string)
    ensures Comps(Dots(n) + l) == Ups(n) + Comps(l)
  {
    if n == 0 {
      assert Dots(n) + l == l;
    } else {
      var rest := Dots(n - 1) + l;
      CompsDots(n - 1, l);
      DotsStep(Dots(n - 1), l);
      CompsUp(rest);
      UpsStep(Ups(n - 1), Comps(l));
    }
  }

  lemma {:induction false} DotsStep(d: string, l: string)
    ensures ("../" + d) + l == ".." + ("/" + (d + l))
  {
  }

  lemma {:induction false} UpsStep(us: seq<string>, cs: seq<string>)
    ensures [".."] + (us + cs) == ([".."] + us) + cs
  {
  }

  lemma {:induction false} CompsUp(rest: string)
    ensures Comps(".." + ("/" + rest)) == [".."] + Comps(rest)
  {
    var s := ".." + ("/" + rest);
    assert s[..2] == ".." && s[2..] == "/" + rest;
    CompsStep(s, 2);
    assert ("/" + rest)[1..] == rest;
    SkipTwice("/" + rest);
    SkipTwice(rest);
  }

  lemma {:induction false} StripSkipped(s: string, t: string)
    ensures var (x, y, k) := Strip(s, t); x == [] || x[0] != SLASH
    decreases |s| + |t|
  {
    var s1, t1 := Skip(s), Skip(t);
    var m := Matching(s1, t1);
    if GoesOn(s1[m..], t1[m..]) { StripSkipped(s1[m..], t1[m..]); }
  }

  /**
    The transformed link leads from the directory of its path to the same place as the original one,
    if no component of the path is "." or "..".
   */
  lemma {:induction false} LinkMeaningKept(base: string, path: string, target: string, size: nat)
    requires Plain(Comps(path))
    ensures Follow(Directory(path), Transformed(base, path, target, size)) == Follow(Directory(path), target)
  {
    if Transforms(base, path, target, size) {
      StrippedKept(path, target);
    }
  }

  lemma {:induction false} StrippedKept(path: string, target: string)
    requires Plain(Comps(path)) && |Comps(Strip(target, path).1)| > 0
    ensures var (l, p, k) := Strip(target, path);
            Follow(Directory(path), Relative(l, |Comps(p)|)) == Resolve([], Comps(target))
  {
    hide Comps, Strip, Resolve, Follow, Relative, Plain;
    StripMeans(target, path);
    StripSkipped(target, path);
    var (l, p, k) := Strip(target, path);
    PartingFrom(Comps(path), Comps(target), l, Comps(p), k);
  }

  lemma {:induction false} PartingFrom(cs: seq<string>, ts: seq<string>, l: string, own: seq<string>, k: nat)
    requires Plain(cs) && k <= |cs| && k <= |ts| && cs[..k] == ts[..k] && Comps(l) == ts[k..] && (l == [] || l[0] != SLASH)
    requires own == cs[k..] && |own| > 0
    ensures Follow(cs[..|cs| - 1], Relative(l, |own|)) == Resolve([], ts)
  {
    PartingKept(cs, ts, l, k);
  }

  lemma {:induction false} PartingKept(cs: seq<string>, ts: seq<string>, l: string, k: nat)
    requires Plain(cs) && k < |cs| && k <= |ts| && cs[..k] == ts[..k] && Comps(l) == ts[k..] && (l == [] || l[0] != SLASH)
    ensures Follow(cs[..|cs| - 1], Relative(l, |cs| - k)) == Resolve([], ts)
  {
    ThroughCommon(cs, ts, k);
    OutputComps(l, |cs| - k, cs[..k], cs[k..][..|cs| - k - 1]);
  }

  /** A path and a target with `k` components in common, seen from where they part. */
  lemma {:induction false} ThroughCommon(cs: seq<string>, ts: seq<string>, k: nat)
    requires Plain(cs) && k < |cs| && k <= |ts| && cs[..k] == ts[..k]
    ensures Resolve([], ts) == Resolve(cs[..k], ts[k..])
    ensures cs[..|cs| - 1] == cs[..k] + cs[k..][..|cs| - k - 1]
  {
    assert ts == ts[..k] + ts[k..];
    ResolveAppend([], ts[..k], ts[k..]);
    assert Plain(cs[..k]);
    ResolvePlain([], cs[..k]);
    assert [] + cs[..k] == cs[..k];
    assert cs[..|cs| - 1][k..] == cs[k..][..|cs| - k - 1];
    assert cs[..|cs| - 1] == cs[..|cs| - 1][..k] + cs[..|cs| - 1][k..];
    assert cs[..|cs| - 1][..k] == cs[..k];
  }

  /** What the new text means in a directory `below` the common part. */
  lemma {:induction false} OutputComps(l: string, n: nat, common: seq<string>, below: seq<string>)
    requires n > 0 && (l == [] || l[0] != SLASH) && |below| == n - 1
    ensures Follow(common + below, Relative(l, n)) == Resolve(common, Comps(l))
  {
    if l == [] && n == 1 {
      DotStays(common);
      assert common + below == common;
    } else {
      var out := Dots(n - 1) + l;
      assert out == [] || out[0] != SLASH;
      CompsDots(n - 1, l);
      ResolveAppend(common + below, Ups(n - 1), Comps(l));
      ResolveUps(common, below);
    }
  }

  lemma {:induction false} DotStays(place: seq<string>)
    ensures Follow(place, ".") == place
  {
    var s := ".";
    assert s[..1] == s && s[1..] == [];
    CompsStep(s, 1);
    assert Comps([]) == [];
    assert ["."] + [] == ["."];
    assert ["."][1..] == [];
  }
}
