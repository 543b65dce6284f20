/**
  transform_symlink of the subdir module and the two scans it uses, on the characters of a buffer.
 */
module Subdir {
  import opened CStrings
  import opened SymlinkPaths

  method SkipSlashes(s: string, i: nat) returns (j: nat)
    requires i <= |s|
    ensures i <= j <= |s| && s[j..] == Skip(s[i..])
  {
    j := i;
    while j < |s| && s[j] == SLASH
      invariant i <= j <= |s| && Skip(s[j..]) == Skip(s[i..])
    {
      assert s[j..][1..] == s[j + 1..];
      j := j + 1;
    }
  }

  method SkipWord(s: string, i: nat) returns (j: nat)
    requires i <= |s|
    ensures i <= j <= |s| && j == i + |Word(s[i..])|
  {
    j := i;
    while j < |s| && s[j] != SLASH
      invariant i <= j <= |s| && j + |Word(s[j..])| == i + |Word(s[i..])|
    {
      assert s[j..][1..] == s[j + 1..];
      j := j + 1;
    }
  }

  /** `ctr` components have been counted, and the rest of the text begins with another or is empty. */
  ghost predicate Counting(p: string, i: nat, ctr: nat)
  {
    i <= |p| && (i < |p| ==> p[i] != SLASH) && ctr + |Comps(p[i..])| == |Comps(p)|
  }

  lemma {:induction false} CountingStarts(p: string, i: nat)
    requires i <= |p| && p[i..] == Skip(p)
    ensures Counting(p, i, 0)
  {
    SkipTwice(p);
    if i < |p| { assert p[i] == Skip(p)[0]; }
  }

  lemma {:induction false} CountingStep(p: string, i: nat, ctr: nat, j: nat, k: nat)
    requires Counting(p, i, ctr) && i < |p| && j == i + |Word(p[i..])| && j <= k <= |p|
    requires p[k..] == Skip(p[j..])
    ensures Counting(p, k, ctr + 1)
  {
    SkipStays(p[i..]);
    assert p[i..][j - i..] == p[j..];
    SkipTwice(p[j..]);
    if k < |p| { assert p[k] == Skip(p[j..])[0]; }
  }

  /** count_components */
  method CountComponents(p: string) returns (ctr: nat)
    ensures ctr == |Comps(p)|
  {
    assert p[0..] == p;
    var i := SkipSlashes(p, 0);
    CountingStarts(p, i);
    ctr := 0;
    while i < |p|
      invariant Counting(p, i, ctr)
      decreases |p| - i
    {
      var j := SkipWord(p, i);
      var k := SkipSlashes(p, j);
      CountingStep(p, i, ctr, j, k);
      i := k;
      ctr := ctr + 1;
    }
    assert p[i..] == [];
  }

  lemma {:induction false} MatchingStep(s: string, i: nat, t: string, j: nat)
    requires i <= |s| && j <= |t|
    ensures Matching(s[i..], t[j..]) ==
              if i == |s| || j == |t| || s[i] != t[j] || s[i] == SLASH then 0 else 1 + Matching(s[i + 1..], t[j + 1..])
  {
    if i < |s| { assert s[i..][1..] == s[i + 1..]; }
    if j < |t| { assert t[j..][1..] == t[j + 1..]; }
  }

  /** The inner loop of strip_common. */
  method MatchWord(s: string, i: nat, t: string, j: nat) returns (a: nat, b: nat)
    requires i <= |s| && j <= |t|
    ensures a == i + Matching(s[i..], t[j..]) && b == j + Matching(s[i..], t[j..])
  {
    hide Matching;
    a, b := i, j;
    MatchingStep(s, a, t, b);
    while a < |s| && b < |t| && s[a] == t[b] && s[a] != SLASH
      invariant i <= a <= |s| && j <= b <= |t| && a - i == b - j
      invariant a - i + Matching(s[a..], t[b..]) == Matching(s[i..], t[j..])
    {
      MatchingStep(s, a, t, b);
      a, b := a + 1, b + 1;
    }
    MatchingStep(s, a, t, b);
  }

  /** What is left to strip from positions a and b on comes to the same as from the beginning. */
  ghost predicate Stripping(s: string, a: nat, t: string, b: nat)
  {
    a <= |s| && b <= |t| && Strip(s[a..], t[b..]).0 == Strip(s, t).0 && Strip(s[a..], t[b..]).1 == Strip(s, t).1
  }

  /** Strip, unfolded once: `x` and `y` are without leading slashes, `x'` and `y'` follow where they agree. */
  lemma {:induction false} StripUnfold(s: string, t: string, x: string, y: string, x': string, y': string)
    requires x == Skip(s) && y == Skip(t) && x' == x[Matching(x, y)..] && y' == y[Matching(x, y)..]
    ensures GoesOn(x', y') ==> Strip(s, t).0 == Strip(x', y').0 && Strip(s, t).1 == Strip(x', y').1 && Matching(x, y) > 0
    ensures !GoesOn(x', y') ==> Strip(s, t).0 == x && Strip(s, t).1 == y
  {
    if GoesOn(x', y') { RoundStrips(s, t); }
  }

  lemma {:induction false} StrippingStep(s: string, a0: nat, t: string, b0: nat, i: nat, j: nat, a: nat, b: nat)
    requires Stripping(s, a0, t, b0) && a0 <= i <= |s| && b0 <= j <= |t|
    requires s[i..] == Skip(s[a0..]) && t[j..] == Skip(t[b0..])
    requires a == i + Matching(s[i..], t[j..]) && b == j + Matching(s[i..], t[j..])
    ensures a <= |s| && b <= |t|
    ensures if GoesOn(s[a..], t[b..]) then Stripping(s, a, t, b) && a + b > a0 + b0
            else s[i..] == Strip(s, t).0 && t[j..] == Strip(s, t).1
  {
    hide Strip, Matching, GoesOn, Skip;
    var m := Matching(s[i..], t[j..]);
    assert s[i..][m..] == s[a..] && t[j..][m..] == t[b..];
    StripUnfold(s[a0..], t[b0..], s[i..], t[j..], s[a..], t[b..]);
  }

  /** The condition of strip_common's loop. */
  method LoopGoesOn(s: string, a: nat, t: string, b: nat) returns (again: bool)
    requires a <= |s| && b <= |t|
    ensures again == GoesOn(s[a..], t[b..])
  {
    again := (a < |s| && b < |t| && s[a] == t[b])
             || (a == |s| && b < |t| && t[b] == SLASH)
             || (b == |t| && a < |s| && s[a] == SLASH);
  }

  /** One round of strip_common's loop. */
  method StripRound(s: string, a0: nat, t: string, b0: nat) returns (i: nat, j: nat, a: nat, b: nat, again: bool)
    requires Stripping(s, a0, t, b0)
    ensures again ==> Stripping(s, a, t, b) && a + b > a0 + b0
    ensures i <= |s| && j <= |t| && (!again ==> s[i..] == Strip(s, t).0 && t[j..] == Strip(s, t).1)
  {
    assert a0 <= |s| && b0 <= |t|;
    hide Stripping, Strip, Matching, GoesOn, Skip;
    i := SkipSlashes(s, a0);
    j := SkipSlashes(t, b0);
    a, b := MatchWord(s, i, t, j);
    StrippingStep(s, a0, t, b0, i, j, a, b);
    again := LoopGoesOn(s, a, t, b);
  }

  /** strip_common: where in the two texts their own parts begin. */
  method StripCommon(s: string, t: string) returns (i: nat, j: nat)
    ensures i <= |s| && j <= |t| && s[i..] == Strip(s, t).0 && t[j..] == Strip(s, t).1
  {
    var a, b := 0, 0;
    var again := true;
    assert s[0..] == s && t[0..] == t;
    i, j := 0, 0;
    while again
      invariant i <= |s| && j <= |t|
      invariant if again then Stripping(s, a, t, b) else s[i..] == Strip(s, t).0 && t[j..] == Strip(s, t).1
      decreases again, |s| + |t| - a - b
    {
      i, j, a, b, again := StripRound(s, a, t, b);
    }
  }

  lemma {:induction false} DotsAppend(n: nat)
    ensures Dots(n + 1) == Dots(n) + "../"
  {
    if n > 0 { DotsAppend(n - 1); }
  }

  lemma {:induction false} DotsHasNoNul(n: nat)
    ensures NUL !in Dots(n)
  {
    if n > 0 { DotsHasNoNul(n - 1); }
  }

  /** The last loop of transform_symlink: "../" from the beginning of the buffer on. */
  method StoreDots(buf: array<char>, n: nat)
    requires 3 * n <= buf.Length
    modifies buf
    ensures buf[..3 * n] == Dots(n) && buf[3 * n..] == old(buf[3 * n..])
  {
    var s := 0;
    var i := 0;
    while i < n
      invariant i <= n && s == 3 * i && buf[..s] == Dots(i)
      invariant buf[3 * n..] == old(buf[3 * n..])
    {
      ghost var done := buf[..s];
      buf[s], buf[s + 1], buf[s + 2] := '.', '.', '/';
      assert buf[..s + 3] == done + "../";
      DotsAppend(i);
      i := i + 1;
      s := s + 3;
    }
  }

  /** memmove */
  method Move(buf: array<char>, dst: nat, src: nat, n: nat)
    requires dst + n <= buf.Length && src + n <= buf.Length
    modifies buf
    ensures buf[dst..dst + n] == old(buf[src..src + n])
  {
    forall k | dst <= k < dst + n {
      buf[k] := buf[src + (k - dst)];
    }
  }

  /** Puts the rest `l` of the target (or "." if nothing is left at all) at position `s`. */
  method MoveRest(buf: array<char>, s: nat, i: nat, llen: nat, ghost l: string) returns (ghost end: string)
    requires i + llen < buf.Length && buf[i..i + llen] == l && buf[i + llen] == NUL && |l| == llen
    requires s + llen + 2 <= buf.Length
    modifies buf
    ensures end == if llen == 0 && s == 0 then "." else l
    ensures s + |end| < buf.Length && buf[s..s + |end| + 1] == end + [NUL]
  {
    end := if llen == 0 && s == 0 then "." else l;
    if llen > 0 {
      assert buf[i..i + llen + 1] == l + [NUL];
      Move(buf, s, i, llen + 1);
    } else if s == 0 {
      buf[s], buf[s + 1] := '.', NUL;
    } else {
      buf[s] := NUL;
    }
  }

  /** The second half of transform_symlink: moves the rest of the target and puts "../" before it. */
  method StoreRelative(buf: array<char>, i: nat, llen: nat, dotdots: nat, ghost l: string)
    requires i + llen < buf.Length && buf[i..i + llen] == l && buf[i + llen] == NUL && NUL !in l && |l| == llen
    requires dotdots * 3 + llen + 2 <= buf.Length
    modifies buf
    ensures NUL in buf[..] && CString(buf[..]) == Relative(l, dotdots + 1)
  {
    hide Dots, CString;
    var s := dotdots * 3;
    ghost var end := MoveRest(buf, s, i, llen, l);
    ghost var tail := buf[s..];
    assert tail[..|end| + 1] == end + [NUL];
    StoreDots(buf, dotdots);
    DotsHasNoNul(dotdots);
    assert buf[..] == Dots(dotdots) + tail;
    Ended(buf[..], Dots(dotdots), tail, end);
  }

  lemma {:induction false} Ended(b: seq<char>, d: string, tail: seq<char>, end: string)
    requires b == d + tail && |end| < |tail| && tail[..|end| + 1] == end + [NUL] && NUL !in d && NUL !in end
    ensures NUL in b && CString(b) == d + end
  {
    var n := |d| + |end|;
    assert b[n] == tail[..|end| + 1][|end|] == NUL;
    assert b[..n] == d + tail[..|end| + 1][..|end|] == d + end;
    CStringIs(b, d + end);
  }

  /** A buffer holds a text, and a NUL behind it. */
  ghost predicate HasText(b: seq<char>, s: string)
  {
    |s| < |b| && b[..|s|] == s && NUL !in s && b[|s|] == NUL
  }

  /** The second part of transform_symlink, once the common components are known. */
  method TransformRest(path: string, buf: array<char>, i: nat, j: nat, target: string)
    requires HasText(buf[..], target) && i <= |target| && j <= |path|
    modifies buf
    ensures NUL in buf[..] && CString(buf[..]) == Rest(target[i..], |Comps(path[j..])|, target, buf.Length)
  {
    CStringIs(buf[..], target);
    assert buf[..][|target|] == NUL;
    var dotdots := CountComponents(path[j..]);
    if dotdots == 0 {
      return;
    }
    var llen := |target| - i;
    if (dotdots - 1) * 3 + llen + 2 > buf.Length {
      return;
    }
    assert buf[i..i + llen] == buf[..][..|target|][i..];
    StoreRelative(buf, i, llen, dotdots - 1, target[i..]);
  }

  /** What is left in the buffer, `l` being the rest of the target and `n` the components of the rest of the path. */
  function Rest(l: string, n: nat, target: string, size: nat): string
  {
    if n > 0 && (n - 1) * 3 + |l| + 2 <= size then Relative(l, n) else target
  }

  /** transform_symlink, in place in the buffer that holds the target; the buffer is never overrun. */
  method TransformSymlink(base: string, path: string, buf: array<char>)
    requires NUL in buf[..]
    modifies buf
    ensures NUL in buf[..] && CString(buf[..]) == Transformed(base, path, old(CString(buf[..])), buf.Length)
  {
    CStringMeans(buf[..]);
    var target := CString(buf[..]);
    if buf[0] != SLASH || base == [] || base[0] != SLASH {
      return;
    }
    assert target[0] == buf[..][..|target|][0];
    var i, j := StripCommon(target, path);
    if i < |base| {
      return;
    }
    TransformedIs(base, path, target, buf.Length, i, j);
    TransformRest(path, buf, i, j, target);
  }

  /** The specification, by the positions that strip_common finds. */
  lemma {:induction false} TransformedIs(base: string, path: string, target: string, size: nat, i: nat, j: nat)
    requires target != [] && target[0] == SLASH && base != [] && base[0] == SLASH && |base| <= i <= |target| && j <= |path|
    requires target[i..] == Strip(target, path).0 && path[j..] == Strip(target, path).1
    ensures Transformed(base, path, target, size) == Rest(target[i..], |Comps(path[j..])|, target, size)
  {
  }
}
