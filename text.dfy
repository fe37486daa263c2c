/** Python string primitives the client relies on: `str.isspace`, `str.rstrip()`,
    `str.strip()`, `"\n".join(...)` and `str.split("\n")`. */
module Text {

  /** Python's `str.isspace()` for one character: the Unicode characters whose
      bidirectional class is WS, B or S, or whose category is Zs. */
  predicate IsSpace(c: char) {
    var n := c as int;
    (0x09 <= n <= 0x0D) || (0x1C <= n <= 0x20) || n == 0x85 || n == 0xA0 || n == 0x1680
    || (0x2000 <= n <= 0x200A) || n == 0x2028 || n == 0x2029 || n == 0x202F
    || n == 0x205F || n == 0x3000
  }

  /** Blanks, tabs and line breaks are whitespace; NUL and `1` are not. */
  lemma SpaceExamples()
    ensures IsSpace(' ') && IsSpace('\t') && IsSpace('\n') && IsSpace('\r')
    ensures !IsSpace('\0') && !IsSpace('1')
  {
  }

  /** Every character of `s` is whitespace (true of the empty string). */
  predicate AllSpace(s: string) {
    forall i :: 0 <= i < |s| ==> IsSpace(s[i])
  }

  /** `s.rstrip()`: the longest prefix of `s` that does not end in whitespace. */
  function RStrip(s: string): (r: string)
    ensures r <= s
    ensures r == [] || !IsSpace(r[|r| - 1])
    ensures AllSpace(s[|r|..])
    decreases |s|
  {
    if |s| > 0 && IsSpace(s[|s| - 1]) then RStrip(s[..|s| - 1]) else s
  }

  /** `s.lstrip()`: the longest suffix of `s` that does not start with whitespace. */
  function LStrip(s: string): (r: string)
    ensures |r| <= |s| && r == s[|s| - |r|..]
    ensures r == [] || !IsSpace(r[0])
    ensures AllSpace(s[..|s| - |r|])
    decreases |s|
  {
    if |s| > 0 && IsSpace(s[0]) then LStrip(s[1..]) else s
  }

  /** `s.strip()`: neither starts nor ends with whitespace (see StripIsSlice for
      where it sits inside `s`). */
  function Strip(s: string): (r: string)
    ensures r == [] || (!IsSpace(r[0]) && !IsSpace(r[|r| - 1]))
  {
    StripEnds(s);
    LStrip(RStrip(s))
  }

  lemma StripEnds(s: string)
    ensures var t := RStrip(s); var r := LStrip(t);
      r == [] || (!IsSpace(r[0]) && !IsSpace(r[|r| - 1]))
  {
    var t := RStrip(s);
    var r := LStrip(t);
    if r != [] {
      assert r[|r| - 1] == t[|t| - 1];
    }
  }

  /** `r` sits at offset `k` of `s` with only whitespace before and after it. */
  predicate PaddedSlice(s: string, r: string, k: int) {
    0 <= k <= |s| - |r| && r == s[k..k + |r|] && AllSpace(s[..k]) && AllSpace(s[k + |r|..])
  }

  /** `strip()` cuts a whitespace run off each end of `s` and keeps the slice between. */
  lemma StripIsSlice(s: string)
    ensures exists k :: PaddedSlice(s, Strip(s), k)
  {
    StripPadded(s);
  }

  /** The ends facts of Strip and the slice of StripIsSlice determine `strip()`:
      no other padded slice of `s` has them. */
  lemma StripUnique(s: string, r: string, k: int)
    requires r == [] || (!IsSpace(r[0]) && !IsSpace(r[|r| - 1]))
    requires PaddedSlice(s, r, k)
    ensures r == Strip(s)
  {
    if r == [] {
      assert s == s[..k] + s[k..];
      RStripEmptyIff(s);
    } else {
      var t := s[..k + |r|];
      assert t[|t| - 1] == r[|r| - 1];
      assert s[|t|..] == s[k + |r|..];
      RStripUnique(s, t);
      assert t == s[..k] + r;
      LStripSkipsSpace(s[..k], r);
    }
  }

  lemma StripPadded(s: string)
    ensures PaddedSlice(s, Strip(s), |RStrip(s)| - |Strip(s)|)
  {
    StripSliceAt(s);
    StripLeadingSpace(s);
  }

  lemma StripSliceAt(s: string)
    ensures var k := |RStrip(s)| - |Strip(s)|;
      0 <= k <= |s| - |Strip(s)| && Strip(s) == s[k..k + |Strip(s)|] && AllSpace(s[k + |Strip(s)|..])
  {
    var t := RStrip(s);
    var r := LStrip(t);
    var k := |t| - |r|;
    assert r == t[k..];
    assert t == s[..|t|];
  }

  lemma StripLeadingSpace(s: string)
    ensures AllSpace(s[..|RStrip(s)| - |Strip(s)|])
  {
    var t := RStrip(s);
    var r := LStrip(t);
    var k := |t| - |r|;
    assert AllSpace(t[..k]);
    forall j | 0 <= j < k
      ensures IsSpace(s[j])
    {
      assert s[j] == t[..k][j];
    }
  }

  /** The three facts RStrip promises determine its result: no other prefix has them. */
  lemma RStripUnique(s: string, r: string)
    requires r <= s
    requires r == [] || !IsSpace(r[|r| - 1])
    requires AllSpace(s[|r|..])
    ensures r == RStrip(s)
  {
    var q := RStrip(s);
    assert |q| == |r|;
  }

  /** Stripping twice strips nothing more. */
  lemma RStripIdempotent(s: string)
    ensures RStrip(RStrip(s)) == RStrip(s)
  {
    RStripUnique(RStrip(s), RStrip(s));
  }

  /** A line right-strips to nothing exactly when it is all whitespace. */
  lemma RStripEmptyIff(s: string)
    ensures RStrip(s) == [] <==> AllSpace(s)
  {
    if AllSpace(s) {
      RStripUnique(s, []);
    } else {
      assert s[0..] == s;
    }
  }

  /** `stdout.strip() == "1"` holds exactly when `stdout` is a single `1`
      surrounded only by whitespace. */
  ghost predicate PaddedOne(s: string) {
    exists i :: 0 <= i < |s| && s[i] == '1' && AllSpace(s[..i]) && AllSpace(s[i + 1..])
  }

  lemma StripIsOneIff(s: string)
    ensures Strip(s) == "1" <==> PaddedOne(s)
  {
    if Strip(s) == "1" {
      StripOneIsPadded(s);
    }
    if PaddedOne(s) {
      var i :| 0 <= i < |s| && s[i] == '1' && AllSpace(s[..i]) && AllSpace(s[i + 1..]);
      PaddedStripsToOne(s, i);
    }
  }

  lemma StripOneIsPadded(s: string)
    requires Strip(s) == "1"
    ensures PaddedOne(s)
  {
    var t := RStrip(s);
    var u := LStrip(t);
    var i := |t| - 1;
    assert s[i] == t[i] == u[0];
    assert s[..i] == t[..|t| - |u|];
    assert s[i + 1..] == s[|t|..];
  }

  lemma PaddedStripsToOne(s: string, i: int)
    requires 0 <= i < |s| && s[i] == '1' && AllSpace(s[..i]) && AllSpace(s[i + 1..])
    ensures Strip(s) == "1"
  {
    var t := s[..i + 1];
    assert s[|t|..] == s[i + 1..];
    RStripUnique(s, t);
    assert t == s[..i] + [s[i]];
    LStripSkipsSpace(s[..i], [s[i]]);
  }

  /** Left-stripping drops exactly a leading whitespace run. */
  lemma {:induction false} LStripSkipsSpace(a: string, b: string)
    requires AllSpace(a)
    requires b == [] || !IsSpace(b[0])
    ensures LStrip(a + b) == b
    decreases |a|
  {
    if a == [] {
      assert a + b == b;
    } else {
      assert (a + b)[0] == a[0];
      assert (a + b)[1..] == a[1..] + b;
      LStripSkipsSpace(a[1..], b);
    }
  }

  /** Index of the first `c` in `s`, or -1 when there is none. */
  function IndexOf(s: string, c: char): (r: int)
    ensures -1 <= r < |s|
    ensures r >= 0 ==> s[r] == c && c !in s[..r]
    ensures r < 0 ==> c !in s
    decreases |s|
  {
    if |s| == 0 then -1
    else if s[0] == c then 0
    else
      var k := IndexOf(s[1..], c);
      if k < 0 then -1 else k + 1
  }

  /** `"\n".join(lines)`: empty exactly for no lines or one empty line. */
  function Join(lines: seq<string>): (r: string)
    ensures r == "" <==> lines == [] || lines == [""]
    decreases |lines|
  {
    if |lines| == 0 then ""
    else if |lines| == 1 then lines[0]
    else lines[0] + "\n" + Join(lines[1..])
  }

  /** `s.split("\n")`: always at least one piece. */
  function Split(s: string): (r: seq<string>)
    ensures |r| >= 1
    decreases |s|
  {
    var i := IndexOf(s, '\n');
    if i < 0 then [s] else [s[..i]] + Split(s[i + 1..])
  }

  predicate NoNewline(lines: seq<string>) {
    forall k :: 0 <= k < |lines| ==> '\n' !in lines[k]
  }

  /** Splitting a join gives the lines back, when no line holds a newline. */
  lemma {:induction false} SplitJoin(lines: seq<string>)
    requires |lines| >= 1 && NoNewline(lines)
    ensures Split(Join(lines)) == lines
    decreases |lines|
  {
    if |lines| == 1 {
      assert '\n' !in lines[0];
    } else {
      var head, rest := lines[0], lines[1..];
      var s := head + "\n" + Join(rest);
      assert '\n' !in head;
      var i := IndexOf(s, '\n');
      assert s[|head|] == '\n';
      assert i == |head|;
      assert s[..i] == head;
      assert s[i + 1..] == Join(rest);
      SplitJoin(rest);
    }
  }

  /** Joining a line in front of at least one more line puts a newline between. */
  lemma JoinCons(head: string, rest: seq<string>)
    requires |rest| >= 1
    ensures Join([head] + rest) == head + "\n" + Join(rest)
  {
    assert ([head] + rest)[1..] == rest;
  }

  /** A string is its part before a newline, the newline and its part after. */
  lemma NewlineSplits(s: string, i: int)
    requires 0 <= i < |s| && s[i] == '\n'
    ensures s[..i] + "\n" + s[i + 1..] == s
  {
    assert s == s[..i] + [s[i]] + s[i + 1..];
  }

  /** Joining a split gives the string back. */
  lemma {:induction false} JoinSplit(s: string)
    ensures Join(Split(s)) == s
    decreases |s|
  {
    var i := IndexOf(s, '\n');
    if i >= 0 {
      var head, tail := s[..i], s[i + 1..];
      var rest := Split(tail);
      assert Split(s) == [head] + rest;
      JoinSplit(tail);
      JoinCons(head, rest);
      NewlineSplits(s, i);
    }
  }
}
