/** Texts in character buffers, ended by a NUL. */
module CStrings {
  const NUL: char := '\0'

  /** The text in a buffer: up to the first NUL. */
  function CString(b: seq<char>): (s: string)
    ensures |s| <= |b|
  {
    if b == [] || b[0] == NUL then [] else [b[0]] + CString(b[1..])
  }

  lemma {:induction false} CStringIs(b: seq<char>, s: string)
    requires |s| < |b| && b[..|s|] == s && NUL !in s && b[|s|] == NUL
    ensures CString(b) == s
  {
    if s != [] {
      assert b[0] == s[0];
      assert b[1..][..|s| - 1] == s[1..];
      CStringIs(b[1..], s[1..]);
      assert s == [s[0]] + s[1..];
    }
  }

  lemma {:induction false} CStringMeans(b: seq<char>)
    requires NUL in b
    ensures var s := CString(b); |s| < |b| && b[..|s|] == s && NUL !in s && b[|s|] == NUL
  {
    if b[0] != NUL {
      assert b == [b[0]] + b[1..];
      CStringMeans(b[1..]);
      var s := CString(b);
      assert b[..|s|] == [b[0]] + b[1..][..|s| - 1];
    }
  }

  /** What a reader of a NUL-ended text sees of `s`. */
  function UpToNul(s: string): string { CString(s + [NUL]) }

  lemma {:induction false} UpToNulIs(s: string)
    requires NUL !in s
    ensures UpToNul(s) == s
  {
    assert (s + [NUL])[..|s|] == s;
    CStringIs(s + [NUL], s);
  }

  /** A text written at the beginning of a buffer and ended there is what is read from it. */
  lemma {:induction false} CStringPrefix(b: seq<char>, s: string)
    requires |s| < |b| && b[..|s|] == s && b[|s|] == NUL
    ensures CString(b) == UpToNul(s)
  {
    if s != [] {
      assert b[0] == s[0];
      if s[0] != NUL {
        assert b[1..][..|s| - 1] == s[1..];
        CStringPrefix(b[1..], s[1..]);
        assert (s + [NUL])[1..] == s[1..] + [NUL];
      }
    }
  }
}
