/**
  Mount options as text: joined with commas, commas and backslashes escaped, and taken apart again
  by two independent readers, the library's and fusermount's.
 */
module OptionText {
  const COMMA: char := ','
  const BACKSLASH: char := '\\'

  function EscapeChar(c: char): string
  {
    if c == COMMA || c == BACKSLASH then [BACKSLASH, c] else [c]
  }

  function Escape(s: string): string
  {
    if s == [] then [] else EscapeChar(s[0]) + Escape(s[1..])
  }

  lemma {:induction false} EscapeAppend(s: string, t: string)
    ensures Escape(s + t) == Escape(s) + Escape(t)
  {
    if s == [] {
      assert s + t == t;
    } else {
      assert (s + t)[1..] == s[1..] + t;
      EscapeAppend(s[1..], t);
    }
  }

  /** fuse_opt_add_opt_escaped: appends an option; only text that is not empty is followed by a comma. */
  function Added(text: string, opt: string): string
  {
    if text == [] then Escape(opt) else text + [COMMA] + Escape(opt)
  }

  /** The text after adding the options one by one. */
  function Join(opts: seq<string>): string
  {
    if opts == [] then [] else Added(Join(opts[..|opts| - 1]), opts[|opts| - 1])
  }

  /** Leading empty options leave no trace in the text. */
  function Kept(opts: seq<string>): (r: seq<string>)
    ensures |r| <= |opts| && (r == [] || r[0] != [])
  {
    if opts == [] || opts[0] != [] then opts else Kept(opts[1..])
  }

  /** The options after the first one. */
  function Tail(opts: seq<string>): string
  {
    if opts == [] then [] else [COMMA] + Escape(opts[0]) + Tail(opts[1..])
  }

  lemma {:induction false} TailAppend(opts: seq<string>, last: string)
    ensures Tail(opts + [last]) == Tail(opts) + [COMMA] + Escape(last)
  {
    if opts == [] {
      assert opts + [last] == [last];
      assert [last][1..] == [];
    } else {
      assert (opts + [last])[1..] == opts[1..] + [last];
      TailAppend(opts[1..], last);
    }
  }

  lemma {:induction false} EscapeEmpty(s: string)
    ensures Escape(s) == [] <==> s == []
  {
  }

  lemma {:induction false} KeptAppend(opts: seq<string>, last: string)
    ensures Kept(opts + [last]) == if Kept(opts) == [] then Kept([last]) else Kept(opts) + [last]
  {
    if opts == [] {
      assert opts + [last] == [last];
    } else {
      assert (opts + [last])[1..] == opts[1..] + [last];
      if opts[0] == [] { KeptAppend(opts[1..], last); }
    }
  }

  /** The joined text, from its beginning. */
  lemma {:induction false} JoinIs(opts: seq<string>)
    ensures Join(opts) == if Kept(opts) == [] then [] else Escape(Kept(opts)[0]) + Tail(Kept(opts)[1..])
  {
    if opts != [] {
      var front, last := opts[..|opts| - 1], opts[|opts| - 1];
      assert opts == front + [last];
      JoinIs(front);
      KeptAppend(front, last);
      EscapeEmpty(last);
      if Kept(front) == [] {
        if last == [] { assert Kept([last]) == Kept([last][1..]) == []; } else { assert Kept([last])[1..] == []; }
      } else {
        var k := Kept(front);
        EscapeEmpty(k[0]);
        assert (k + [last])[1..] == k[1..] + [last];
        TailAppend(k[1..], last);
        JoinStep(Escape(k[0]), Tail(k[1..]), Escape(last));
      }
    }
  }

  lemma {:induction false} JoinStep(a: string, b: string, c: string)
    requires a != []
    ensures a + b != [] && (a + b) + [COMMA] + c == a + (b + [COMMA] + c)
  {
  }

  // ------------------------------------------------------- the library's reader

  predicate OctalDigits(a: char, b: char, c: char)
  {
    '0' <= a <= '3' && '0' <= b <= '7' && '0' <= c <= '7'
  }

  /** The character that three octal digits stand for. */
  function OctalValue(a: char, b: char, c: char): char
    requires OctalDigits(a, b, c)
  {
    ((a as int - 48) * 64 + (b as int - 48) * 8 + (c as int - 48)) as char
  }

  predicate IsOctal(s: string)
  {
    |s| >= 3 && OctalDigits(s[0], s[1], s[2])
  }

  function Octal(s: string): char
    requires IsOctal(s)
  {
    OctalValue(s[0], s[1], s[2])
  }

  /** What process_real_option_group makes of the rest of the text, `cur` being the option so far. */
  function DecodeFrom(s: string, cur: string): (r: seq<string>)
    ensures r != []
    decreases |s|
  {
    if s == [] then [cur]
    else if s[0] == COMMA then [cur] + DecodeFrom(s[1..], [])
    else if s[0] == BACKSLASH && |s| > 1 then
      if IsOctal(s[1..]) then DecodeFrom(s[4..], cur + [Octal(s[1..])]) else DecodeFrom(s[2..], cur + [s[1]])
    else DecodeFrom(s[1..], cur + [s[0]])
  }

  function Decode(s: string): seq<string> { DecodeFrom(s, []) }

  lemma {:induction false} DecodeChar(c: char, rest: string, cur: string)
    ensures DecodeFrom(EscapeChar(c) + rest, cur) == DecodeFrom(rest, cur + [c])
  {
    var s := EscapeChar(c) + rest;
    if c == COMMA || c == BACKSLASH {
      assert s[1..][0] == c;
      assert !IsOctal(s[1..]);
      assert s[2..] == rest;
    } else {
      assert s[1..] == rest;
    }
  }

  /** An escaped option is read back as it was. */
  lemma {:induction false} DecodeEscape(x: string, rest: string, cur: string)
    ensures DecodeFrom(Escape(x) + rest, cur) == DecodeFrom(rest, cur + x)
    decreases |x|
  {
    if x == [] {
      assert Escape(x) + rest == rest && cur + x == cur;
    } else {
      var more := Escape(x[1..]) + rest;
      assert Escape(x) + rest == EscapeChar(x[0]) + more;
      DecodeChar(x[0], more, cur);
      DecodeEscape(x[1..], rest, cur + [x[0]]);
      assert cur + [x[0]] + x[1..] == cur + x;
    }
  }

  lemma {:induction false} DecodeTail(cur: string, opts: seq<string>)
    ensures DecodeFrom(Tail(opts), cur) == [cur] + opts
    decreases |opts|
  {
    hide Escape, Octal, IsOctal;
    if opts != [] {
      var s := Tail(opts);
      assert s[1..] == Escape(opts[0]) + Tail(opts[1..]);
      DecodeEscape(opts[0], Tail(opts[1..]), []);
      assert [] + opts[0] == opts[0];
      DecodeTail(opts[0], opts[1..]);
      assert opts == [opts[0]] + opts[1..];
    }
  }

  /** Reading the joined text gives the options without the leading empty ones; an empty text is one empty option. */
  lemma {:induction false} DecodeJoin(opts: seq<string>)
    ensures Decode(Join(opts)) == if Kept(opts) == [] then [[]] else Kept(opts)
  {
    JoinIs(opts);
    var k := Kept(opts);
    if k != [] {
      DecodeEscape(k[0], Tail(k[1..]), []);
      assert [] + k[0] == k[0];
      DecodeTail(k[0], k[1..]);
      assert k == [k[0]] + k[1..];
    }
  }

  /** The round trip is exact if and only if the first option is not empty, or is the only one. */
  lemma {:induction false} RoundTripIff(opts: seq<string>)
    requires opts != []
    ensures Decode(Join(opts)) == opts <==> opts[0] != [] || |opts| == 1
  {
    DecodeJoin(opts);
    if opts[0] == [] {
      assert Kept(opts) == Kept(opts[1..]);
      if |opts| == 1 { assert opts == [[]]; assert opts[1..] == []; }
    }
  }

  lemma {:induction false} NonEmptyRoundTrip(opts: seq<string>)
    requires opts != [] && forall i :: 0 <= i < |opts| ==> opts[i] != []
    ensures Decode(Join(opts)) == opts
  {
    RoundTripIff(opts);
  }

  // -------------------------------------------------------- fusermount's reader

  /** The length of the segment at the beginning of `s`. */
  function SegmentLength(s: string): (n: nat)
    ensures n <= |s| && (n < |s| ==> s[n] == COMMA)
  {
    if s == [] || s[0] == COMMA then 0
    else if s[0] == BACKSLASH && |s| > 1 then 2 + SegmentLength(s[2..])
    else 1 + SegmentLength(s[1..])
  }

  /** The segments do_mount goes through; text that ends with a comma has none behind it. */
  function Segments(s: string): seq<string>
    decreases |s|
  {
    if s == [] then []
    else
      var n := SegmentLength(s);
      [s[..n]] + if n < |s| then Segments(s[n + 1..]) else []
  }

  /** get_string_opt */
  function Unescape(s: string): string
  {
    if s == [] then []
    else if s[0] == BACKSLASH && |s| > 1 then [s[1]] + Unescape(s[2..])
    else [s[0]] + Unescape(s[1..])
  }

  lemma {:induction false} UnescapeEscape(s: string)
    ensures Unescape(Escape(s)) == s
  {
    if s != [] {
      var e := EscapeChar(s[0]);
      assert Escape(s)[|e|..] == Escape(s[1..]);
      UnescapeEscape(s[1..]);
    }
  }

  lemma {:induction false} SegmentOfChar(c: char, rest: string)
    ensures SegmentLength(EscapeChar(c) + rest) == |EscapeChar(c)| + SegmentLength(rest)
  {
    var s := EscapeChar(c) + rest;
    if c == COMMA || c == BACKSLASH { assert s[2..] == rest; } else { assert s[1..] == rest; }
  }

  /** No comma inside an escaped option ends its segment. */
  lemma {:induction false} SegmentOfEscape(x: string, rest: string)
    requires rest == [] || rest[0] == COMMA
    ensures SegmentLength(Escape(x) + rest) == |Escape(x)|
  {
    if x == [] {
      assert Escape(x) + rest == rest;
    } else {
      var more := Escape(x[1..]) + rest;
      assert Escape(x) + rest == EscapeChar(x[0]) + more;
      SegmentOfChar(x[0], more);
      SegmentOfEscape(x[1..], rest);
    }
  }

  function EscapeAll(opts: seq<string>): (r: seq<string>)
    ensures |r| == |opts| && forall i :: 0 <= i < |r| ==> r[i] == Escape(opts[i])
  {
    if opts == [] then [] else [Escape(opts[0])] + EscapeAll(opts[1..])
  }

  /** The options that end up in a segment: not a last one that is empty. */
  function Segmented(opts: seq<string>): seq<string>
  {
    if opts != [] && opts[|opts| - 1] == [] then opts[..|opts| - 1] else opts
  }

  lemma {:induction false} SegmentsStep(x: string, rest: string)
    ensures Segments(Escape(x) + [COMMA] + rest) == [Escape(x)] + Segments(rest)
  {
    var s := Escape(x) + [COMMA] + rest;
    assert s == Escape(x) + ([COMMA] + rest);
    SegmentOfEscape(x, [COMMA] + rest);
    var n := |Escape(x)|;
    assert s[..n] == Escape(x) && s[n + 1..] == rest;
  }

  lemma {:induction false} SegmentsLast(x: string)
    ensures Segments(Escape(x)) == EscapeAll(Segmented([x]))
  {
    EscapeEmpty(x);
    if x == [] {
      assert [x][..0] == [];
    } else {
      SegmentOfEscape(x, []);
      assert Escape(x) + [] == Escape(x);
      assert [x][1..] == [];
      assert Escape(x)[..|Escape(x)|] == Escape(x);
    }
  }

  lemma {:induction false} SegmentedMore(x: string, opts: seq<string>)
    requires opts != []
    ensures EscapeAll(Segmented([x] + opts)) == [Escape(x)] + EscapeAll(Segmented(opts))
  {
    var all := [x] + opts;
    assert all[|all| - 1] == opts[|opts| - 1];
    assert all[..|all| - 1] == [x] + opts[..|opts| - 1];
    assert Segmented(all) == [x] + Segmented(opts);
    assert Segmented(all)[1..] == Segmented(opts);
  }

  lemma {:induction false} SegmentsOfTail(x: string, opts: seq<string>)
    ensures Segments(Escape(x) + Tail(opts)) == EscapeAll(Segmented([x] + opts))
    decreases |opts|
  {
    hide Escape, SegmentLength, Segments;
    if opts == [] {
      assert Escape(x) + Tail(opts) == Escape(x) && [x] + opts == [x];
      SegmentsLast(x);
    } else {
      var rest := Escape(opts[0]) + Tail(opts[1..]);
      assert Escape(x) + Tail(opts) == Escape(x) + [COMMA] + rest;
      SegmentsStep(x, rest);
      SegmentsOfTail(opts[0], opts[1..]);
      assert [opts[0]] + opts[1..] == opts;
      SegmentedMore(x, opts);
    }
  }

  /** fusermount finds the escaped options again, without leading empty ones and without an empty last one. */
  lemma {:induction false} SegmentsOfJoin(opts: seq<string>)
    ensures Segments(Join(opts)) == EscapeAll(Segmented(Kept(opts)))
  {
    JoinIs(opts);
    var k := Kept(opts);
    if k != [] {
      SegmentsOfTail(k[0], k[1..]);
      assert [k[0]] + k[1..] == k;
    }
  }

  /** It finds exactly the options if and only if neither the first nor the last is empty. */
  lemma {:induction false} SegmentsIff(opts: seq<string>)
    requires opts != []
    ensures Segments(Join(opts)) == EscapeAll(opts) <==> opts[0] != [] && opts[|opts| - 1] != []
  {
    SegmentsOfJoin(opts);
    if opts[0] == [] {
      assert |Kept(opts)| <= |opts[1..]|;
      assert |EscapeAll(Segmented(Kept(opts)))| < |EscapeAll(opts)|;
    } else if opts[|opts| - 1] == [] {
      assert |EscapeAll(Segmented(Kept(opts)))| < |EscapeAll(opts)|;
    }
  }

  predicate NoSpecial(s: string)
  {
    forall i :: 0 <= i < |s| ==> s[i] != COMMA && s[i] != BACKSLASH
  }

  lemma {:induction false} EscapeNothing(s: string)
    requires NoSpecial(s)
    ensures Escape(s) == s
  {
    if s != [] { EscapeNothing(s[1..]); }
  }

  /** An option "name=value" keeps its name in the segment, and get_string_opt gives its value. */
  lemma {:induction false} ValueRecovered(name: string, value: string)
    requires NoSpecial(name)
    ensures var segment := Escape(name + value);
            |name| <= |segment| && segment[..|name|] == name && Unescape(segment[|name|..]) == value
  {
    EscapeAppend(name, value);
    EscapeNothing(name);
    UnescapeEscape(value);
    assert (name + Escape(value))[|name|..] == Escape(value);
  }
}
