/**
  The code that writes and reads option text: add_opt_common and the in-place decoder
  process_real_option_group of the library, and the splitter and get_string_opt of fusermount.
 */
module Options {
  import opened CStrings
  import opened OptionText

  lemma {:induction false} EscapeStep(x: string, i: nat)
    requires i < |x|
    ensures Escape(x[..i + 1]) == Escape(x[..i]) + EscapeChar(x[i])
  {
    assert x[..i + 1] == x[..i] + [x[i]];
    EscapeAppend(x[..i], [x[i]]);
    assert [x[i]][1..] == [];
    assert Escape([x[i]]) == EscapeChar(x[i]) + [];
  }

  /** add_opt_common */
  method AddOptCommon(text: string, opt: string, esc: bool) returns (d: string)
    ensures d == if text == [] then Written(opt, esc) else text + [COMMA] + Written(opt, esc)
    ensures esc ==> d == Added(text, opt)
  {
    d := text;
    if |text| > 0 {
      d := d + [COMMA];
    }
    ghost var head := d;
    var i := 0;
    assert head + Written(opt[..0], esc) == head;
    while i < |opt|
      invariant i <= |opt| && d == head + Written(opt[..i], esc)
    {
      WrittenStep(head, opt, i, esc);
      if esc && (opt[i] == COMMA || opt[i] == BACKSLASH) {
        d := d + [BACKSLASH];
      }
      d := d + [opt[i]];
      i := i + 1;
    }
    assert opt[..i] == opt;
  }

  function Written(s: string, esc: bool): string { if esc then Escape(s) else s }

  lemma {:induction false} WrittenStep(head: string, opt: string, i: nat, esc: bool)
    requires i < |opt|
    ensures var d := head + Written(opt[..i], esc);
            head + Written(opt[..i + 1], esc) ==
              if esc && EscapeChar(opt[i]) != [opt[i]] then (d + [BACKSLASH]) + [opt[i]] else d + [opt[i]]
  {
    EscapeStep(opt, i);
    assert opt[..i + 1] == opt[..i] + [opt[i]];
    if esc {
      assert head + (Escape(opt[..i]) + EscapeChar(opt[i])) == (head + Escape(opt[..i])) + EscapeChar(opt[i]);
    } else {
      assert head + (opt[..i] + [opt[i]]) == (head + opt[..i]) + [opt[i]];
    }
  }

  /** The decoder has read `s` characters of `text` and written `d`; the options in `done` are complete. */
  ghost predicate Decoding(buf: seq<char>, text: string, s: nat, d: nat, done: seq<string>)
  {
    && d <= s <= |text| < |buf| && buf[s..|text|] == text[s..] && buf[|text|] == NUL
    && Decode(text) == done + DecodeFrom(text[s..], buf[..d])
  }

  lemma {:induction false} Drop(t: string, s: nat, k: nat)
    requires s + k <= |t|
    ensures t[s..][k..] == t[s + k..]
  {
  }

  lemma {:induction false} Take(t: string, s: nat, k: nat)
    requires s + k <= |t|
    ensures t[s..][..k] == t[s..s + k]
  {
  }

  predicate OctalAt(t: string, i: nat)
  {
    i + 3 <= |t| && OctalDigits(t[i], t[i + 1], t[i + 2])
  }

  /** How many characters of the text the next decoded character takes. */
  function Width(text: string, s: nat): nat
    requires s < |text|
  {
    if text[s] == BACKSLASH && s + 1 < |text| then (if OctalAt(text, s + 1) then 4 else 2) else 1
  }

  /** The next decoded character. */
  function Decoded(text: string, s: nat): char
    requires s < |text|
  {
    if text[s] == BACKSLASH && s + 1 < |text| then
      if OctalAt(text, s + 1) then OctalValue(text[s + 1], text[s + 2], text[s + 3]) else text[s + 1]
    else text[s]
  }

  lemma {:induction false} DecodeNext(text: string, s: nat, cur: string)
    requires s < |text|
    ensures text[s] == COMMA ==> DecodeFrom(text[s..], cur) == [cur] + DecodeFrom(text[s + 1..], [])
    ensures text[s] != COMMA ==>
              && s + Width(text, s) <= |text|
              && DecodeFrom(text[s..], cur) == DecodeFrom(text[s + Width(text, s)..], cur + [Decoded(text, s)])
  {
    Drop(text, s, 1);
    if text[s] != COMMA {
      Drop(text, s, Width(text, s));
      if s + 1 < |text| { assert IsOctal(text[s + 1..]) == OctalAt(text, s + 1); }
    }
  }

  /** Writing one decoded character, having read on to `s'`. */
  lemma {:induction false} DecodingPut(buf: seq<char>, text: string, s: nat, d: nat, done: seq<string>, c: char,
          s': nat)
    requires Decoding(buf, text, s, d, done) && s < s' <= |text|
    requires DecodeFrom(text[s..], buf[..d]) == DecodeFrom(text[s'..], buf[..d] + [c])
    ensures Decoding(buf[d := c], text, s', d + 1, done)
  {
    var after := buf[d := c];
    assert after[..d + 1] == buf[..d] + [c];
    assert after[s'..|text|] == buf[s..|text|][s' - s..] == text[s'..];
  }

  lemma {:induction false} DecodingComma(buf: seq<char>, text: string, s: nat, d: nat, done: seq<string>)
    requires Decoding(buf, text, s, d, done) && s < |text| && text[s] == COMMA
    ensures Decoding(buf[d := NUL], text, s + 1, 0, done + [buf[..d]])
  {
    var after := buf[d := NUL];
    DecodeNext(text, s, buf[..d]);
    assert after[s + 1..|text|] == buf[s..|text|][1..] == text[s + 1..];
    assert after[..0] == [];
    assert done + ([buf[..d]] + DecodeFrom(text[s + 1..], [])) == done + [buf[..d]] + DecodeFrom(text[s + 1..], []);
  }

  lemma {:induction false} DecodingEnd(buf: seq<char>, text: string, d: nat, done: seq<string>)
    requires Decoding(buf, text, |text|, d, done)
    ensures Decode(text) == done + [buf[..d]]
  {
    assert text[|text|..] == [];
  }

  /** The buffer still has the unread part of the text, and a NUL behind it. */
  lemma {:induction false} DecodingReads(buf: seq<char>, text: string, s: nat, d: nat, done: seq<string>, k: nat)
    requires Decoding(buf, text, s, d, done) && s <= k <= |text|
    ensures k < |text| ==> buf[k] == text[k]
    ensures k == |text| ==> buf[k] == NUL
  {
    if k < |text| { assert buf[s..|text|][k - s] == text[s..][k - s]; }
  }

  /** Every option has been handed over, as far as its first NUL. */
  ghost predicate Handed(opts: seq<string>, done: seq<string>)
  {
    |opts| == |done| && forall i :: 0 <= i < |opts| ==> opts[i] == UpToNul(done[i])
  }

  /**
    process_real_option_group: decodes in place, the write position never ahead of the read position,
    and hands over one option after the other, each as far as its first NUL.
   */
  method ProcessGroup(buf: array<char>) returns (opts: seq<string>)
    requires NUL in buf[..]
    modifies buf
    ensures Handed(opts, Decode(old(CString(buf[..]))))
  {
    hide DecodeFrom, CString;
    ghost var text := CString(buf[..]);
    CStringMeans(buf[..]);
    ghost var done: seq<string> := [];
    var s: nat, d: nat := 0, 0;
    var end := false;
    opts := [];
    assert text[0..] == text && buf[..0] == [];
    while !end
      invariant !end ==> Decoding(buf[..], text, s, d, done)
      invariant end ==> Decode(text) == done
      invariant NUL !in text && Handed(opts, done)
      decreases !end, |text| - s
    {
      ghost var before, cur, s0 := buf[..], buf[..d], s;
      DecodingReads(before, text, s, d, done, s);
      assert s < |text| ==> text[s] in text;
      if buf[s] == NUL {
        end := true;
      }
      if buf[s] == COMMA || end {
        if end { DecodingEnd(before, text, d, done); } else { DecodingComma(before, text, s, d, done); }
        buf[d] := NUL;
        assert buf[..] == before[d := NUL] && buf[..][..d] == cur;
        CStringPrefix(buf[..], cur);
        var option := CString(buf[..]);
        opts := opts + [option];
        done := done + [cur];
        d := 0;
        s := s + 1;
      } else {
        s, d := DecodeCharacter(buf, text, s, d, done);
      }
    }
  }

  /** One character that is not a separator, with its escape if it has one. */
  method DecodeCharacter(buf: array<char>, ghost text: string, s0: nat, d0: nat,
          ghost done: seq<string>) returns (s: nat, d: nat)
    requires Decoding(buf[..], text, s0, d0, done) && s0 < |text| && text[s0] != COMMA && NUL !in text
    modifies buf
    ensures s > s0 && Decoding(buf[..], text, s, d, done)
  {
    ghost var before := buf[..];
    s, d := s0, d0;
    DecodeNext(text, s0, before[..d0]);
    DecodingReads(before, text, s0, d0, done, s0);
    DecodingReads(before, text, s0, d0, done, s0 + 1);
    assert s0 + 1 < |text| ==> text[s0 + 1] in text;
    var c := buf[s];
    if buf[s] == BACKSLASH && buf[s + 1] != NUL {
      s := s + 1;
      if s0 + 2 <= |text| { DecodingReads(before, text, s0, d0, done, s0 + 2); }
      if s0 + 3 <= |text| { DecodingReads(before, text, s0, d0, done, s0 + 3); }
      if '0' <= buf[s] <= '3' && '0' <= buf[s + 1] <= '7' && '0' <= buf[s + 2] <= '7' {
        c := OctalValue(buf[s], buf[s + 1], buf[s + 2]);
        s := s + 2;
      } else {
        c := buf[s];
      }
    }
    buf[d] := c;
    d := d + 1;
    s := s + 1;
    DecodingPut(before, text, s0, d0, done, c, s);
    assert buf[..] == before[d0 := c];
  }

  // ------------------------------------------------------------ fusermount's side

  lemma {:induction false} SegmentStep(t: string, i: nat)
    requires i < |t|
    ensures SegmentLength(t[i..]) ==
              if t[i] == COMMA then 0
              else if t[i] == BACKSLASH && i + 1 < |t| then 2 + SegmentLength(t[i + 2..])
              else 1 + SegmentLength(t[i + 1..])
  {
    Drop(t, i, 1);
    if i + 2 <= |t| { Drop(t, i, 2); }
  }

  lemma {:induction false} SegmentEnd(t: string)
    ensures SegmentLength(t[|t|..]) == 0
  {
  }

  /** The length scan of do_mount's loop. */
  method ScanSegment(opts: string, s: nat) returns (len: nat)
    requires s <= |opts|
    ensures len == SegmentLength(opts[s..])
  {
    hide SegmentLength;
    len := 0;
    SegmentEnd(opts);
    while s + len < |opts|
      invariant s + len <= |opts| && len + SegmentLength(opts[s + len..]) == SegmentLength(opts[s..])
      decreases |opts| - s - len
    {
      SegmentStep(opts, s + len);
      if opts[s + len] == BACKSLASH && s + len + 1 < |opts| {
        len := len + 1;
      } else if opts[s + len] == COMMA {
        return;
      }
      len := len + 1;
    }
  }

  lemma {:induction false} SegmentsNext(opts: string, s: nat, n: nat, next: nat)
    requires s < |opts| && n == SegmentLength(opts[s..]) && next == if s + n < |opts| then s + n + 1 else s + n
    ensures Segments(opts[s..]) == [opts[s..s + n]] + Segments(opts[next..])
  {
    hide SegmentLength;
    Take(opts, s, n);
    Drop(opts, s, next - s);
    if s + n == |opts| { NoSegments(opts[next..]); }
  }

  lemma {:induction false} NoSegments(t: string)
    requires t == []
    ensures Segments(t) == []
  {
  }

  lemma {:induction false} Regroup(a: seq<string>, x: string, b: seq<string>)
    ensures a + ([x] + b) == (a + [x]) + b
  {
  }

  /** The segments before position `s` have been found. */
  ghost predicate Splitting(opts: string, s: nat, segments: seq<string>)
  {
    s <= |opts| && segments + Segments(opts[s..]) == Segments(opts)
  }

  lemma {:induction false} SplittingStep(opts: string, s: nat, segments: seq<string>, n: nat, next: nat)
    requires Splitting(opts, s, segments) && s < |opts|
    requires n == SegmentLength(opts[s..]) && next == if s + n < |opts| then s + n + 1 else s + n
    ensures Splitting(opts, next, segments + [opts[s..s + n]])
  {
    hide SegmentLength, Segments;
    SegmentsNext(opts, s, n, next);
    Regroup(segments, opts[s..s + n], Segments(opts[next..]));
  }

  lemma {:induction false} SplittingEnds(opts: string, segments: seq<string>)
    ensures Splitting(opts, 0, [])
    ensures Splitting(opts, |opts|, segments) ==> segments == Segments(opts)
  {
    assert opts[0..] == opts;
    NoSegments(opts[|opts|..]);
  }

  /** The loop of do_mount over the option text. */
  method SplitOptions(opts: string) returns (segments: seq<string>)
    ensures segments == Segments(opts)
  {
    hide Splitting, Segments, SegmentLength;
    segments := [];
    var s: nat := 0;
    SplittingEnds(opts, []);
    while s < |opts|
      invariant s <= |opts| && Splitting(opts, s, segments)
      decreases |opts| - s
    {
      var len := ScanSegment(opts, s);
      SplittingStep(opts, s, segments, len, if s + len < |opts| then s + len + 1 else s + len);
      segments := segments + [opts[s..s + len]];
      s := s + len;
      if s < |opts| {
        s := s + 1;
      }
    }
    SplittingEnds(opts, segments);
  }

  lemma {:induction false} UnescapeStep(t: string, i: nat)
    requires i < |t|
    ensures Unescape(t[i..]) ==
              if t[i] == BACKSLASH && i + 1 < |t| then [t[i + 1]] + Unescape(t[i + 2..])
              else [t[i]] + Unescape(t[i + 1..])
  {
    Drop(t, i, 1);
    if i + 2 <= |t| { Drop(t, i, 2); }
  }

  /** What `get_string_opt` has written so far. */
  ghost predicate Unescaping(text: string, i: nat, written: string)
  {
    i <= |text| && written + Unescape(text[i..]) == Unescape(text) && NUL !in written && |written| <= i
  }

  lemma {:induction false} UnescapingStep(text: string, i: nat, written: string, j: nat)
    requires Unescaping(text, i, written) && i < |text| && NUL !in text
    requires j == if text[i] == BACKSLASH && i + 1 < |text| then i + 1 else i
    ensures Unescaping(text, j + 1, written + [text[j]])
  {
    hide Unescape;
    UnescapeStep(text, i);
    assert text[j] in text;
    assert written + ([text[j]] + Unescape(text[j + 1..])) == (written + [text[j]]) + Unescape(text[j + 1..]);
  }

  lemma {:induction false} UnescapingEnds(text: string, written: string)
    ensures Unescaping(text, 0, [])
    ensures Unescaping(text, |text|, written) ==> written == Unescape(text) && NUL !in written
  {
    assert text[0..] == text && text[|text|..] == [];
  }

  /** get_string_opt: the value behind a name of `optLen` characters, in a fresh buffer. */
  method GetStringOpt(segment: string, optLen: nat) returns (val: array<char>)
    requires optLen <= |segment| && NUL !in segment
    ensures fresh(val) && NUL in val[..] && CString(val[..]) == Unescape(segment[optLen..])
  {
    hide Unescaping, Unescape, CString;
    var s := segment[optLen..];
    var len := |s|;
    val := new char[len + 1](_ => NUL);
    var d, i := 0, 0;
    ghost var written: string := [];
    UnescapingEnds(s, []);
    assert NUL !in s;
    while i < len
      invariant d <= i <= len && val[..d] == written && Unescaping(s, i, written)
      decreases len - i
    {
      ghost var at := i;
      if s[i] == BACKSLASH && i + 1 < len {
        i := i + 1;
      }
      UnescapingStep(s, at, written, i);
      val[d] := s[i];
      assert val[..d + 1] == written + [s[i]];
      written := written + [s[i]];
      d := d + 1;
      i := i + 1;
    }
    val[d] := NUL;
    UnescapingEnds(s, written);
    assert val[..][..d] == written && val[..][d] == NUL;
    CStringIs(val[..], written);
  }

  // ------------------------------------------------------------------ end to end

  predicate NulFree(opts: seq<string>)
  {
    forall i :: 0 <= i < |opts| ==> NUL !in opts[i]
  }

  lemma {:induction false} EscapeNulFree(s: string)
    requires NUL !in s
    ensures NUL !in Escape(s)
  {
    if s != [] {
      assert s[0] in s;
      EscapeNulFree(s[1..]);
    }
  }

  lemma {:induction false} JoinNulFree(opts: seq<string>)
    requires NulFree(opts)
    ensures NUL !in Join(opts)
  {
    if opts != [] {
      JoinNulFree(opts[..|opts| - 1]);
      EscapeNulFree(opts[|opts| - 1]);
    }
  }

  lemma {:induction false} KeptNulFree(opts: seq<string>)
    requires NulFree(opts)
    ensures NulFree(Kept(opts))
  {
    if opts != [] && opts[0] == [] { KeptNulFree(opts[1..]); }
  }

  /** The options added one by one, escaped. */
  method JoinOptions(opts: seq<string>) returns (text: string)
    ensures text == Join(opts)
  {
    text := [];
    var i := 0;
    while i < |opts|
      invariant i <= |opts| && text == Join(opts[..i])
    {
      assert opts[..i + 1][..i] == opts[..i];
      text := AddOptCommon(text, opts[i], true);
      i := i + 1;
    }
    assert opts[..i] == opts;
  }

  /** process_option_group: on a copy of the text. */
  method ProcessOptionGroup(text: string) returns (opts: seq<string>)
    requires NUL !in text
    ensures Handed(opts, Decode(text))
  {
    hide Decode;
    var buf := new char[|text| + 1](i => if 0 <= i < |text| then text[i] else NUL);
    assert buf[..][..|text|] == text && buf[..][|text|] == NUL;
    CStringIs(buf[..], text);
    opts := ProcessGroup(buf);
  }

  lemma {:induction false} HandedWhole(opts: seq<string>, done: seq<string>)
    requires Handed(opts, done) && NulFree(done)
    ensures opts == done
  {
    forall i | 0 <= i < |done| ensures UpToNul(done[i]) == done[i] { UpToNulIs(done[i]); }
  }

  /** The library reads back what it has written, but for leading empty options. */
  method ReadBack(opts: seq<string>) returns (read: seq<string>)
    requires NulFree(opts)
    ensures read == if Kept(opts) == [] then [[]] else Kept(opts)
    ensures opts != [] ==> (read == opts <==> opts[0] != [] || |opts| == 1)
  {
    hide Join, Decode, Kept, Handed;
    var text := JoinOptions(opts);
    JoinNulFree(opts);
    read := ProcessOptionGroup(text);
    DecodeJoin(opts);
    KeptNulFree(opts);
    HandedWhole(read, Decode(text));
    if opts != [] { RoundTripIff(opts); }
  }

  lemma {:induction false} SegmentOf(opts: seq<string>, k: nat, name: string, value: string)
    requires k < |opts| && opts[0] != [] && opts[|opts| - 1] != []
    requires opts[k] == name + value && NoSpecial(name) && NUL !in opts[k]
    ensures var segments := Segments(Join(opts));
            && |segments| == |opts| && NUL !in segments[k]
            && |name| <= |segments[k]| && segments[k][..|name|] == name && Unescape(segments[k][|name|..]) == value
  {
    hide Segments, Join, Escape, Unescape;
    SegmentsIff(opts);
    EscapeNulFree(opts[k]);
    ValueRecovered(name, value);
  }

  /** fusermount finds the value of an option "name=value" that the library has written. */
  method RecoverValue(opts: seq<string>, k: nat, name: string, ghost value: string) returns (val: array<char>)
    requires k < |opts| && opts[0] != [] && opts[|opts| - 1] != []
    requires opts[k] == name + value && NoSpecial(name) && NUL !in opts[k]
    ensures fresh(val) && NUL in val[..] && CString(val[..]) == value
  {
    hide Segments, Join, Unescape, CString;
    var text := JoinOptions(opts);
    var segments := SplitOptions(text);
    SegmentOf(opts, k, name, value);
    val := GetStringOpt(segments[k], |name|);
  }
}
