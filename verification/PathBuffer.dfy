/**
  The path under construction in try_get_path: a buffer filled from its end towards its start,
  one "/name" at a time, and moved to the end of a bigger buffer when the next one does not fit.
 */
module PathBuffer {
  const UINT_MAX: nat := 0xffff_ffff

  /** The text of a list of names, outermost directory first: "/a/b/c". */
  function PathText(names: seq<string>): string
  {
    if names == [] then "" else "/" + names[0] + PathText(names[1..])
  }

  lemma {:induction false} PathTextAppend(a: seq<string>, b: seq<string>)
    ensures PathText(a + b) == PathText(a) + PathText(b)
  {
    if a == [] {
      assert a + b == b;
    } else {
      assert (a + b)[1..] == a[1..] + b;
      PathTextAppend(a[1..], b);
      assert "/" + a[0] + (PathText(a[1..]) + PathText(b)) == "/" + a[0] + PathText(a[1..]) + PathText(b);
    }
  }

  /** Different name lists never give the same text, as long as no name contains a slash. */
  lemma {:induction false} PathTextInjective(a: seq<string>, b: seq<string>)
    requires forall n :: n in a || n in b ==> '/' !in n
    requires PathText(a) == PathText(b)
    ensures a == b
  {
    if a != [] && b != [] {
      var ta, tb := PathText(a[1..]), PathText(b[1..]);
      assert ta == [] || ta[0] == '/';
      assert tb == [] || tb[0] == '/';
      assert PathText(a)[1..] == a[0] + ta && PathText(b)[1..] == b[0] + tb;
      FirstComponent(a[0], ta, b[0], tb);
      PathTextInjective(a[1..], b[1..]);
      assert a == [a[0]] + a[1..] && b == [b[0]] + b[1..];
    } else {
      assert a != [] ==> |PathText(a)| > 0;
      assert b != [] ==> |PathText(b)| > 0;
    }
  }

  lemma ComponentNoLonger(a: string, ta: string, b: string, tb: string)
    requires a + ta == b + tb && '/' !in b
    requires ta == [] || ta[0] == '/'
    ensures |b| <= |a|
  {
    assert forall k :: 0 <= k < |b| ==> (b + tb)[k] == b[k] && b[k] != '/';
    if ta == [] { assert |a| == |b + tb|; } else { assert (a + ta)[|a|] == '/'; }
  }

  lemma FirstComponent(a: string, ta: string, b: string, tb: string)
    requires a + ta == b + tb && '/' !in a && '/' !in b
    requires (ta == [] || ta[0] == '/') && (tb == [] || tb[0] == '/')
    ensures a == b && ta == tb
  {
    ComponentNoLonger(a, ta, b, tb);
    ComponentNoLonger(b, tb, a, ta);
    assert a == (a + ta)[..|a|] && b == (b + tb)[..|b|];
    assert ta == (a + ta)[|a|..] && tb == (b + tb)[|b|..];
  }

  class PathBuf {
    var buf: array<char>
    var s: nat

    ghost predicate Valid()
      reads this, buf
    {
      256 <= buf.Length <= UINT_MAX && s < buf.Length && buf[buf.Length - 1] == '\0'
    }

    /** What has been written so far, without the terminating NUL. */
    ghost function Text(): string
      reads this, buf
      requires Valid()
    {
      buf[s..buf.Length - 1]
    }

    constructor ()
      ensures Valid() && fresh(buf) && Text() == ""
    {
      buf := new char[256](_ => '\0');
      s := 255;
    }

    /** The size the buffer doubles to, stopping at the largest unsigned value. */
    static method NewSize(size: nat, needed: nat) returns (newSize: nat)
      requires 0 < size <= UINT_MAX && needed <= UINT_MAX
      ensures size <= newSize <= UINT_MAX && needed <= newSize
      ensures needed <= size ==> newSize == size
      ensures newSize == size || newSize == UINT_MAX || newSize < 2 * needed
    {
      newSize := size;
      while newSize < needed
        invariant size <= newSize <= UINT_MAX
        invariant newSize == size || newSize == UINT_MAX || newSize < 2 * needed
        invariant needed <= size ==> newSize == size
        decreases UINT_MAX - newSize
      {
        if newSize >= 0x8000_0000 {
          newSize := UINT_MAX;
        } else {
          newSize := newSize * 2;
        }
      }
    }

    /** Moves the text to the end of a bigger buffer that has room for `extra` more characters in front. */
    method Grow(extra: nat)
      requires Valid() && |Text()| + 1 + extra <= UINT_MAX
      modifies this
      ensures Valid() && fresh(buf) && Text() == old(Text()) && extra <= s
    {
      var pathlen := buf.Length - s;
      var newSize := NewSize(buf.Length, pathlen + extra);
      var newbuf := new char[newSize](_ => '\0');
      var shift := newSize - buf.Length;
      forall i | s <= i < buf.Length {
        newbuf[i + shift] := buf[i];
      }
      assert forall i :: newSize - pathlen <= i < newSize ==> newbuf[i] == buf[i - shift];
      assert newbuf[newSize - pathlen..newSize - 1] == buf[s..buf.Length - 1];
      buf, s := newbuf, newSize - pathlen;
    }

    /** strncpy in front of the text. */
    method Prepend(text: string)
      requires Valid() && |text| <= s
      modifies this, buf
      ensures Valid() && buf == old(buf) && s == old(s) - |text| && Text() == text + old(Text())
    {
      forall i | 0 <= i < |text| {
        buf[s - |text| + i] := text[i];
      }
      s := s - |text|;
      assert forall i :: 0 <= i < |text| ==> buf[s + i] == text[i];
    }

    /** add_name: puts "/name" in front of the text, growing the buffer when it does not fit. */
    method AddName(name: string)
      requires Valid() && |Text()| + |name| + 2 <= UINT_MAX
      modifies this, buf
      ensures Valid() && (buf == old(buf) || fresh(buf))
      ensures Text() == "/" + name + old(Text())
    {
      if s <= |name| {
        Grow(|name| + 1);
      }
      Prepend(name);
      Prepend("/");
    }

    /** The finished path: the text, or "/" when nothing was added. */
    method Finish() returns (path: string)
      requires Valid()
      ensures path == if Text() == "" then "/" else Text()
    {
      if s == buf.Length - 1 {
        path := "/";
      } else {
        path := buf[s..buf.Length - 1];
      }
    }
  }
}
