/** What a line of a text is: the breaks, the ends of the lines, and the text put together from both. */
module TextLines {
  import opened Wrappers
  import opened Text
  import opened Budget

  /** The line boundaries, by code point. */
  lemma {:induction false} BreaksAre(c: char)
    ensures IsBreak(c) <==>
            || 0x0A <= c as int <= 0x0D || 0x1C <= c as int <= 0x1E || c as int == 0x85
            || 0x2028 <= c as int <= 0x2029
  {
    AmongIs(c, BREAKS, 0);
    BreakCodes();
  }

  lemma {:induction false} BreakCodes()
    ensures |BREAKS| == 10 && BREAKS[0] as int == 0x0A && BREAKS[1] as int == 0x0D && BREAKS[2] as int == 0x0B
    ensures BREAKS[3] as int == 0x0C && BREAKS[4] as int == 0x1C && BREAKS[5] as int == 0x1D
    ensures BREAKS[6] as int == 0x1E && BREAKS[7] as int == 0x85
    ensures BREAKS[8] as int == 0x2028 && BREAKS[9] as int == 0x2029
  {
  }

  /** The whitespace characters, by code point. */
  lemma {:induction false} SpacesAre(c: char)
    ensures IsSpace(c) <==>
            || 0x09 <= c as int <= 0x0D || 0x1C <= c as int <= 0x20 || c as int == 0x85 || c as int == 0xA0
            || c as int == 0x1680 || 0x2000 <= c as int <= 0x200A || 0x2028 <= c as int <= 0x2029
            || c as int == 0x202F || c as int == 0x205F || c as int == 0x3000
  {
    BreaksAre(c);
    AmongIs(c, OTHER_SPACES, 0);
    SpaceCodes();
    hide IsBreak, Among, OTHER_SPACES;
    if 0x2000 <= c as int <= 0x200A {
      assert OTHER_SPACES[5 + (c as int - 0x2000)] == c;
    }
  }

  lemma {:induction false} SpaceCodes()
    ensures |OTHER_SPACES| == 19
    ensures OTHER_SPACES[0] as int == 0x20 && OTHER_SPACES[1] as int == 0x09 && OTHER_SPACES[2] as int == 0x1F
    ensures OTHER_SPACES[3] as int == 0xA0 && OTHER_SPACES[4] as int == 0x1680
    ensures forall i :: 5 <= i <= 15 ==> OTHER_SPACES[i] as int == 0x2000 + i - 5
    ensures OTHER_SPACES[16] as int == 0x202F && OTHER_SPACES[17] as int == 0x205F
    ensures OTHER_SPACES[18] as int == 0x3000
  {
  }

  // ----- the lines of a text -----

  /**
   How a line ends, given what follows: with a carriage return and a newline, with another line
   boundary, or, if it is the last one and not empty, with nothing.
   */
  predicate EndsWith(line: string, end: string, rest: string) {
    || end == "\r\n"
    || (|end| == 1 && IsBreak(end[0]) && !(end == "\r" && "\n" <= rest))
    || (end == "" && rest == "" && line != "")
  }

  /** A text is its lines with their ends, one after the other. */
  predicate HasLines(s: string, lines: seq<string>, ends: seq<string>) {
    if lines == [] then s == "" && ends == []
    else
      && ends != [] && BreakFree(lines[0]) && lines[0] + ends[0] <= s
      && EndsWith(lines[0], ends[0], s[|lines[0] + ends[0]|..])
      && HasLines(s[|lines[0] + ends[0]|..], lines[1..], ends[1..])
  }

  lemma {:induction false} LineCut(s: string, k: nat, n: nat)
    requires k + n <= |s|
    ensures |s[..k] + s[k..k + n]| == k + n && s[..k] + s[k..k + n] <= s
  {
    assert s[..k] + s[k..k + n] == s[..k + n];
  }

  lemma {:induction false} FirstEnd(s: string)
    requires s != ""
    ensures var k := BreakAt(s);
            var n := if k < |s| then BreakLength(s, k) else 0;
            EndsWith(s[..k], s[k..k + n], s[k + n..])
  {
    var k := BreakAt(s);
    if k < |s| {
      var n := BreakLength(s, k);
      var end, rest := s[k..k + n], s[k + n..];
      hide IsBreak;
      if n == 2 {
        assert end == ['\r', '\n'];
      } else {
        assert end == [s[k]];
        assert end == "\r" ==> s[k] == '\r';
        assert "\n" <= rest ==> rest[0] == '\n' && rest[0] == s[k + 1];
      }
    } else {
      assert s[..k] == s && s[k..] == "";
    }
  }

  lemma {:induction false} MoreLines(
    s: string, line: string, end: string, rest: string, lines: seq<string>, ends: seq<string>)
    requires s == (line + end) + rest && BreakFree(line) && EndsWith(line, end, rest) && HasLines(rest, lines, ends)
    ensures HasLines(s, [line] + lines, [end] + ends)
  {
    hide BreakFree, EndsWith;
    assert ([line] + lines)[1..] == lines && ([end] + ends)[1..] == ends;
    assert s[|line + end|..] == rest;
  }

  /** Splitting finds lines the text consists of. */
  lemma {:induction false} SplitHasLines(s: string) returns (ends: seq<string>)
    ensures HasLines(s, SplitLines(s), ends)
    decreases |s|
  {
    EmptyHasNone();
    ends := [];
    if s != "" {
      var k := BreakAt(s);
      var n := if k < |s| then BreakLength(s, k) else 0;
      var line, end, rest := s[..k], s[k..k + n], s[k + n..];
      FirstEnd(s);
      SplitFirst(s);
      hide IsBreak, BreakAt, BreakLength, EndsWith, SplitLines, HasLines, BreakFree;
      assert s == (line + end) + rest;
      if k < |s| {
        var last := SplitHasLines(rest);
        MoreLines(s, line, end, rest, SplitLines(rest), last);
        ends := [end] + last;
      } else {
        assert line == s && rest == "";
        MoreLines(s, line, end, rest, [], []);
        assert [line] + [] == [line];
        ends := [end] + [];
      }
    }
  }

  lemma {:induction false} EmptyHasNone()
    ensures SplitLines("") == [] && HasLines("", [], [])
  {
  }

  lemma {:induction false} FirstLineFound(s: string, line: string, end: string)
    requires BreakFree(line) && line + end <= s && EndsWith(line, end, s[|line + end|..])
    ensures s != "" && BreakAt(s) == |line|
    ensures |line| < |s| ==> BreakLength(s, |line|) == |end|
    ensures |line| == |s| <==> end == ""
    ensures line == s[..|line|]
  {
    BreaksAre('\r');
    hide IsBreak;
    assert s[..|line|] == line;
    assert |end| > 0 ==> s[|line|] == end[0];
    assert |end| == 2 ==> s[|line| + 1] == end[1];
    BreakAtUnique(s, |line|);
    if |end| == 1 && |line| + 1 < |s| {
      assert s[|line + end|..][0] == s[|line| + 1];
    }
  }

  /** The lines of a text are determined by it, so they are what splitting finds. */
  lemma {:induction false} LinesAreUnique(s: string, lines: seq<string>, ends: seq<string>)
    requires HasLines(s, lines, ends)
    ensures lines == SplitLines(s)
  {
    hide IsBreak, BreakFree, BreakAt, BreakLength, EndsWith;
    if lines != [] {
      var line, end := lines[0], ends[0];
      FirstLineFound(s, line, end);
      SplitFirst(s);
      LinesAreUnique(s[|line + end|..], lines[1..], ends[1..]);
      hide SplitLines;
      if |line| == |s| {
        assert s[|line + end|..] == "";
        EmptyHasNone();
        assert lines[1..] == [] && s[..|line|] == s;
      } else {
        assert SplitLines(s) == [line] + SplitLines(s[|line + end|..]);
      }
      assert lines == [line] + lines[1..];
    }
  }

  /** The lines with their breaks are the lines and their ends. */
  lemma {:induction false} KeepIsLinesWithEnds(s: string, lines: seq<string>, ends: seq<string>)
    requires HasLines(s, lines, ends)
    ensures |ends| == |lines| == |SplitKeep(s)|
    ensures forall i :: 0 <= i < |lines| ==> SplitKeep(s)[i] == lines[i] + ends[i]
  {
    hide IsBreak, BreakFree, EndsWith, BreakAt, BreakLength;
    if lines != [] {
      var line, end := lines[0], ends[0];
      FirstLineFound(s, line, end);
      KeepIsLinesWithEnds(s[|line + end|..], lines[1..], ends[1..]);
      if |line| == |s| {
        assert s[|line + end|..] == "";
        assert line + end == s;
      } else {
        assert s[..|line + end|] == line + end;
      }
    }
  }
}
