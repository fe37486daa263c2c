/** How `read_pane` turns a pane's visible lines into its `contents` string:
    right-strip every line, drop the trailing run of empty lines, join with
    newlines. */
module Screen {
  import opened Text

  /** Pops empty lines off the end while the last line is empty. */
  function TrimTrailingEmpty(lines: seq<string>): (r: seq<string>)
    ensures r <= lines
    ensures r == [] || r[|r| - 1] != ""
    ensures forall i :: |r| <= i < |lines| ==> lines[i] == ""
    decreases |lines|
  {
    if |lines| > 0 && lines[|lines| - 1] == "" then TrimTrailingEmpty(lines[..|lines| - 1]) else lines
  }

  /** Every line right-stripped: each result line is a prefix of its screen line
      that does not end in whitespace, and only whitespace was cut from it. */
  function StripLines(screen: seq<string>): (r: seq<string>)
    ensures |r| == |screen|
    ensures forall i :: 0 <= i < |r| ==>
      r[i] <= screen[i] && (r[i] == [] || !IsSpace(r[i][|r[i]| - 1])) && AllSpace(screen[i][|r[i]|..])
  {
    seq(|screen|, i requires 0 <= i < |screen| => RStrip(screen[i]))
  }

  /** The line list `read_pane` joins: the stripped lines up to the last one that
      is not empty. */
  function Normalize(screen: seq<string>): (r: seq<string>)
    ensures |r| <= |screen|
    ensures r <= StripLines(screen)
    ensures r == [] || r[|r| - 1] != ""
  {
    TrimTrailingEmpty(StripLines(screen))
  }

  /** The `contents` field `read_pane` reports: empty exactly when no line is kept. */
  function Contents(screen: seq<string>): (r: string)
    ensures r == "" <==> Normalize(screen) == []
  {
    Join(Normalize(screen))
  }

  /** The normalisation loop of `read_pane`: append each stripped line, then pop
      empty lines off the end. */
  method NormalizeScreen(screen: seq<string>) returns (lines: seq<string>)
    ensures lines == Normalize(screen)
  {
    lines := [];
    for i := 0 to |screen|
      invariant |lines| == i
      invariant forall k :: 0 <= k < i ==> lines[k] == RStrip(screen[k])
    {
      lines := lines + [RStrip(screen[i])];
    }
    assert lines == StripLines(screen);
    while |lines| > 0 && lines[|lines| - 1] == ""
      invariant TrimTrailingEmpty(lines) == Normalize(screen)
      decreases |lines|
    {
      lines := lines[..|lines| - 1];
    }
  }

  /** The three facts TrimTrailingEmpty promises determine its result. */
  lemma TrimUnique(lines: seq<string>, r: seq<string>)
    requires r <= lines
    requires r == [] || r[|r| - 1] != ""
    requires forall i :: |r| <= i < |lines| ==> lines[i] == ""
    ensures r == TrimTrailingEmpty(lines)
  {
    var q := TrimTrailingEmpty(lines);
    assert |q| == |r|;
  }

  /** What normalisation keeps and drops. The kept lines are the first lines of
      the screen, each right-stripped, so none ends in whitespace and interior
      blank lines stay where they were. The last kept line is not empty. Every
      dropped line is all whitespace. */
  lemma NormalizeCharacterised(screen: seq<string>)
    ensures var n := Normalize(screen);
      && |n| <= |screen|
      && (forall i :: 0 <= i < |n| ==> n[i] == RStrip(screen[i]))
      && (forall i :: 0 <= i < |n| ==> n[i] == [] || !IsSpace(n[i][|n[i]| - 1]))
      && (forall i :: |n| <= i < |screen| ==> AllSpace(screen[i]))
      && (n == [] || n[|n| - 1] != "")
  {
    var n := Normalize(screen);
    var s := StripLines(screen);
    forall i | |n| <= i < |screen|
      ensures AllSpace(screen[i])
    {
      assert s[i] == "";
      RStripEmptyIff(screen[i]);
    }
  }

  /** Normalising normalised lines changes nothing. */
  lemma NormalizeIdempotent(screen: seq<string>)
    ensures Normalize(Normalize(screen)) == Normalize(screen)
  {
    var n := Normalize(screen);
    NormalizeCharacterised(screen);
    forall i | 0 <= i < |n|
      ensures RStrip(n[i]) == n[i]
    {
      RStripIdempotent(screen[i]);
    }
    assert StripLines(n) == n;
    TrimUnique(n, n);
  }

  /** A screen yields empty `contents` exactly when every line is blank. */
  lemma BlankIffEmptyContents(screen: seq<string>)
    ensures Contents(screen) == "" <==> forall i :: 0 <= i < |screen| ==> AllSpace(screen[i])
  {
    var n := Normalize(screen);
    NormalizeCharacterised(screen);
    if forall i :: 0 <= i < |screen| ==> AllSpace(screen[i]) {
      if |n| > 0 {
        RStripEmptyIff(screen[|n| - 1]);
      }
    }
  }

  /** `contents` determines the normalised lines: when no screen line holds a
      newline, splitting `contents` on newlines gives them back (and an empty
      `contents` stands for no lines at all). */
  lemma ContentsRoundTrip(screen: seq<string>)
    requires NoNewline(screen)
    ensures Contents(screen) == "" ==> Normalize(screen) == []
    ensures Contents(screen) != "" ==> Split(Contents(screen)) == Normalize(screen)
  {
    var n := Normalize(screen);
    NormalizeCharacterised(screen);
    forall k | 0 <= k < |n|
      ensures '\n' !in n[k]
    {
      assert n[k] <= screen[k];
    }
    if n != [] {
      SplitJoin(n);
    }
  }

  /** Only the trailing blank run goes; interior blanks stay. */
  lemma TrimExample()
    ensures TrimTrailingEmpty(["a", "", "b", "", "", ""]) == ["a", "", "b"]
  {
    TrimUnique(["a", "", "b", "", "", ""], ["a", "", "b"]);
  }

  /** A buffer "hello", "world" followed by blank lines reads as "hello\nworld". */
  lemma ContentsExample()
    ensures Contents(["hello", "world  ", "", "\t", ""]) == "hello\nworld"
  {
    NormalizeExample();
    JoinCons("hello", ["world"]);
    assert ["hello"] + ["world"] == ["hello", "world"];
  }

  lemma NormalizeExample()
    ensures Normalize(["hello", "world  ", "", "\t", ""]) == ["hello", "world"]
  {
    StripLinesExample();
    TrimUnique(["hello", "world", "", "", ""], ["hello", "world"]);
  }

  lemma StripLinesExample()
    ensures StripLines(["hello", "world  ", "", "\t", ""]) == ["hello", "world", "", "", ""]
  {
    RStripUnique("hello", "hello");
    RStripUnique("world  ", "world");
    RStripEmptyIff("");
    RStripEmptyIff("\t");
  }
}
