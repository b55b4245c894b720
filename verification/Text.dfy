/**
 The text operations the source relies on: whitespace stripping, substring search, line
 splitting and joining. A line break is any of the characters Python's `splitlines` breaks
 at, with a carriage return and a following newline counting as one break.
 */
module Text {
  import opened Wrappers

  predicate Among(c: char, chars: string, i: nat)
    requires i <= |chars|
    decreases |chars| - i
  {
    i < |chars| && (c == chars[i] || Among(c, chars, i + 1))
  }

  const BREAKS := "\n\r\U{0B}\U{0C}\U{1C}\U{1D}\U{1E}\U{85}\U{2028}\U{2029}"

  const OTHER_SPACES :=
    " \t\U{1F}\U{A0}\U{1680}\U{2000}\U{2001}\U{2002}\U{2003}\U{2004}\U{2005}\U{2006}\U{2007}\U{2008}\U{2009}\U{200A}\U{202F}\U{205F}\U{3000}"

  predicate IsBreak(c: char) {
    Among(c, BREAKS, 0)
  }

  predicate IsSpace(c: char) {
    IsBreak(c) || Among(c, OTHER_SPACES, 0)
  }

  lemma {:induction false} AmongIs(c: char, chars: string, i: nat)
    requires i <= |chars|
    ensures Among(c, chars, i) <==> exists k :: i <= k < |chars| && chars[k] == c
    decreases |chars| - i
  {
    if i < |chars| {
      AmongIs(c, chars, i + 1);
    }
  }

  lemma {:induction false} PrintableIsNoSpace(c: char)
    requires ' ' < c <= '~'
    ensures !IsSpace(c)
  {
    AmongIs(c, BREAKS, 0);
    AmongIs(c, OTHER_SPACES, 0);
  }

  lemma {:induction false} PlainIsNoBreak(c: char)
    requires ' ' <= c <= '~'
    ensures !IsBreak(c)
  {
  }

  lemma {:induction false} NewlineBreaks()
    ensures IsBreak('\n') && IsSpace('\n')
  {
  }

  predicate Blank(s: string) {
    forall i :: 0 <= i < |s| ==> IsSpace(s[i])
  }

  predicate BreakFree(s: string) {
    forall i :: 0 <= i < |s| ==> !IsBreak(s[i])
  }

  /** Every line break is a plain newline. */
  predicate Clean(s: string) {
    forall i :: 0 <= i < |s| && IsBreak(s[i]) ==> s[i] == '\n'
  }

  // ----- stripping -----

  /** One past the last character among the first `n` that is not whitespace. */
  function EndOf(s: string, n: nat): (e: nat)
    requires n <= |s|
    ensures e <= n
  {
    if n > 0 && IsSpace(s[n - 1]) then EndOf(s, n - 1) else n
  }

  /** The first position from `n` on that does not hold whitespace. */
  function StartOf(s: string, n: nat): (b: nat)
    requires n <= |s|
    ensures n <= b <= |s|
    decreases |s| - n
  {
    if n < |s| && IsSpace(s[n]) then StartOf(s, n + 1) else n
  }

  function RStrip(s: string): (r: string)
    ensures |r| <= |s|
  {
    s[..EndOf(s, |s|)]
  }

  function LStrip(s: string): (r: string)
    ensures |r| <= |s|
  {
    s[StartOf(s, 0)..]
  }

  function Strip(s: string): string { RStrip(LStrip(s)) }

  lemma {:induction false} EndOfShape(s: string, n: nat)
    requires n <= |s|
    ensures EndOf(s, n) > 0 ==> !IsSpace(s[EndOf(s, n) - 1])
    ensures forall i :: EndOf(s, n) <= i < n ==> IsSpace(s[i])
  {
    hide IsSpace;
    if n > 0 && IsSpace(s[n - 1]) {
      EndOfShape(s, n - 1);
    }
  }

  lemma {:induction false} StartOfShape(s: string, n: nat)
    requires n <= |s|
    ensures StartOf(s, n) < |s| ==> !IsSpace(s[StartOf(s, n)])
    ensures forall i :: n <= i < StartOf(s, n) ==> IsSpace(s[i])
    decreases |s| - n
  {
    hide IsSpace;
    if n < |s| && IsSpace(s[n]) {
      StartOfShape(s, n + 1);
    }
  }

  /** Stripping the end keeps the longest prefix that does not end in whitespace. */
  lemma {:induction false} RStripShape(s: string)
    ensures var r := RStrip(s);
            && |r| <= |s| && r == s[..|r|]
            && (r != "" ==> !IsSpace(r[|r| - 1]))
            && (forall i :: |r| <= i < |s| ==> IsSpace(s[i]))
  {
    EndOfShape(s, |s|);
    hide IsSpace;
  }

  /** Stripping the start keeps the longest suffix that does not start with whitespace. */
  lemma {:induction false} LStripShape(s: string)
    ensures var r := LStrip(s);
            && |r| <= |s| && r == s[|s| - |r|..]
            && (r != "" ==> !IsSpace(r[0]))
            && (forall i :: 0 <= i < |s| - |r| ==> IsSpace(s[i]))
  {
    StartOfShape(s, 0);
    hide IsSpace;
  }

  lemma {:induction false} RStripUnique(s: string, r: string)
    requires |r| <= |s| && r == s[..|r|] && (r == "" || !IsSpace(r[|r| - 1]))
    requires forall i :: |r| <= i < |s| ==> IsSpace(s[i])
    ensures RStrip(s) == r
  {
    EndOfShape(s, |s|);
    hide IsSpace;
    var e := EndOf(s, |s|);
    assert |r| > 0 ==> r[|r| - 1] == s[|r| - 1];
    assert e == |r|;
  }

  lemma {:induction false} LStripUnique(s: string, r: string)
    requires |r| <= |s| && s[|s| - |r|..] == r && (r == "" || !IsSpace(r[0]))
    requires forall i :: 0 <= i < |s| - |r| ==> IsSpace(s[i])
    ensures LStrip(s) == r
  {
    StartOfShape(s, 0);
    hide IsSpace;
    var b := StartOf(s, 0);
    assert |r| > 0 ==> r[0] == s[|s| - |r|];
    assert b == |s| - |r|;
  }

  lemma {:induction false} RStripBlank(s: string)
    ensures Blank(s) <==> RStrip(s) == ""
  {
    RStripShape(s);
    hide IsSpace, RStrip;
    if Blank(s) {
      RStripUnique(s, "");
    }
  }

  /** Stripping the end of a text that is not blank does not change its start. */
  lemma {:induction false} StripBothEnds(s: string)
    requires !Blank(s)
    ensures LStrip(RStrip(s)) <= LStrip(s) && Strip(RStrip(s)) == Strip(s)
    ensures LStrip(RStrip(s)) == RStrip(LStrip(s))
  {
    LStripShape(s);
    var core := LStrip(s);
    hide IsSpace, RStrip, LStrip;
    var lead := s[..|s| - |core|];
    assert s == lead + core && Blank(lead);
    BlankAppend(lead, core);
    RStripTwice(core);
    RStripShape(core);
    RStripBlank(core);
    RStripAppend(lead, core);
    LStripAppend(lead, RStrip(core));
    LStripUnique(RStrip(core), RStrip(core));
  }

  /** Printable text with printable ends has no breaks and nothing to strip. */
  lemma {:induction false} PlainText(s: string)
    requires s != "" && ' ' < s[0] && ' ' < s[|s| - 1]
    requires forall i :: 0 <= i < |s| ==> ' ' <= s[i] <= '~'
    ensures BreakFree(s) && !Blank(s) && RStrip(s) == s && LStrip(s) == s
  {
    forall i | 0 <= i < |s| ensures !IsBreak(s[i]) {
      PlainIsNoBreak(s[i]);
    }
    PrintableIsNoSpace(s[0]);
    PrintableIsNoSpace(s[|s| - 1]);
    hide IsSpace, RStrip, LStrip;
    RStripUnique(s, s);
    LStripUnique(s, s);
  }

  lemma {:induction false} RStripTwice(s: string)
    ensures RStrip(RStrip(s)) == RStrip(s)
    ensures !Blank(s) ==> !Blank(RStrip(s))
  {
    RStripShape(s);
    hide IsSpace, RStrip;
    RStripUnique(RStrip(s), RStrip(s));
    RStripBlank(s);
    RStripBlank(RStrip(s));
  }

  /** Stripping the end of a text strips only its last piece, when that piece is not blank. */
  lemma {:induction false} RStripAppend(a: string, b: string)
    ensures !Blank(b) ==> RStrip(a + b) == a + RStrip(b)
    ensures Blank(b) ==> RStrip(a + b) == RStrip(a)
  {
    RStripShape(a);
    RStripShape(b);
    hide IsSpace, RStrip;
    if Blank(b) {
      RStripUnique(a + b, RStrip(a));
    } else {
      RStripBlank(b);
      assert (a + RStrip(b))[|a + RStrip(b)| - 1] == RStrip(b)[|RStrip(b)| - 1];
      RStripUnique(a + b, a + RStrip(b));
    }
  }

  lemma {:induction false} BlankAppend(a: string, b: string)
    ensures Blank(a + b) <==> Blank(a) && Blank(b)
  {
    assert forall i :: 0 <= i < |a| ==> (a + b)[i] == a[i];
    assert forall i :: 0 <= i < |b| ==> (a + b)[|a| + i] == b[i];
    if Blank(a) && Blank(b) {
      assert forall i :: |a| <= i < |a + b| ==> (a + b)[i] == b[i - |a|];
    }
  }

  /** Stripping the start of a text strips only its first piece, when that piece is not blank. */
  lemma {:induction false} LStripAppend(a: string, b: string)
    ensures Blank(a) ==> LStrip(a + b) == LStrip(b)
    ensures !Blank(a) ==> LStrip(a + b) == LStrip(a) + b
  {
    LStripShape(a);
    LStripShape(b);
    hide IsSpace, LStrip;
    if Blank(a) {
      var n := |LStrip(b)|;
      assert (a + b)[|a| + |b| - n..] == b[|b| - n..];
      LStripUnique(a + b, LStrip(b));
    } else {
      var n := |LStrip(a)|;
      assert n > 0;
      assert (a + b)[|a| - n..] == a[|a| - n..] + b;
      LStripUnique(a + b, LStrip(a) + b);
    }
  }

  // ----- search -----

  predicate At(s: string, sub: string, i: nat) {
    i + |sub| <= |s| && s[i..i + |sub|] == sub
  }

  predicate Contains(s: string, sub: string) {
    exists i :: 0 <= i <= |s| && At(s, sub, i)
  }

  /** The first occurrence at or after `from`, if any. */
  function IndexFrom(s: string, sub: string, from: nat): (r: Option<nat>)
    ensures r.Some? ==> from <= r.value && r.value + |sub| <= |s| && At(s, sub, r.value)
    ensures r.Some? ==> forall i :: from <= i < r.value ==> !At(s, sub, i)
    ensures r.None? ==> forall i :: from <= i <= |s| ==> !At(s, sub, i)
    decreases |s| - from
  {
    if from > |s| then None
    else if At(s, sub, from) then Some(from)
    else IndexFrom(s, sub, from + 1)
  }

  // ----- lines -----

  /** The position of the first line break, or the length of the text. */
  function BreakAt(s: string): (k: nat)
    ensures k <= |s| && (k < |s| ==> IsBreak(s[k])) && BreakFree(s[..k])
  {
    if s == "" || IsBreak(s[0]) then 0
    else
      var k := BreakAt(s[1..]) + 1;
      assert forall i :: 0 < i < k ==> s[i] == s[1..][..k - 1][i - 1];
      k
  }

  /** The length of the break at `k`: two for a carriage return followed by a newline. */
  function BreakLength(s: string, k: nat): (n: nat)
    requires k < |s|
    ensures 1 <= n <= 2 && k + n <= |s|
  {
    if s[k] == '\r' && k + 1 < |s| && s[k + 1] == '\n' then 2 else 1
  }

  function SplitLines(s: string): (lines: seq<string>)
    ensures lines == [] <==> s == ""
    ensures forall i :: 0 <= i < |lines| ==> BreakFree(lines[i])
  {
    if s == "" then []
    else
      var k := BreakAt(s);
      if k == |s| then assert s[..k] == s; [s] else [s[..k]] + SplitLines(s[k + BreakLength(s, k)..])
  }

  /** Lines or sections joined by single newlines. */
  function Join(parts: seq<string>): string {
    if parts == [] then ""
    else if |parts| == 1 then parts[0]
    else parts[0] + "\n" + Join(parts[1..])
  }

  lemma {:induction false} BreakAtUnique(s: string, k: nat)
    requires k <= |s| && (k < |s| ==> IsBreak(s[k])) && BreakFree(s[..k])
    ensures BreakAt(s) == k
  {
  }

  /** Splitting undoes joining, for break-free lines that do not end in an empty one. */
  lemma {:induction false} SplitJoin(lines: seq<string>)
    requires forall i :: 0 <= i < |lines| ==> BreakFree(lines[i])
    requires lines == [] || lines[|lines| - 1] != ""
    ensures SplitLines(Join(lines)) == lines
  {
    NewlineBreaks();
    hide IsBreak, IsSpace;
    if |lines| == 1 {
      assert lines[0][..|lines[0]|] == lines[0];
      BreakAtUnique(lines[0], |lines[0]|);
    } else if |lines| > 1 {
      var s := Join(lines);
      var k := |lines[0]|;
      assert s[k] == '\n' && s[..k] == lines[0];
      BreakAtUnique(s, k);
      assert s[k + 1..] == Join(lines[1..]);
      SplitJoin(lines[1..]);
    }
  }

  /** Behind the first break of a clean text. */
  lemma {:induction false} CleanRest(s: string, k: nat)
    requires Clean(s) && k < |s| && IsBreak(s[k]) && s[|s| - 1] != '\n'
    ensures BreakLength(s, k) == 1 && s == s[..k] + "\n" + s[k + 1..]
    ensures s[k + 1..] != "" && s[k + 1..][|s| - k - 2] != '\n' && Clean(s[k + 1..])
  {
    hide IsBreak;
    assert s[k] == '\n';
  }

  lemma {:induction false} JoinOne(s: string)
    ensures Join([s]) == s && Join([]) == ""
  {
  }

  /** Joining undoes splitting, for a text whose breaks are newlines and that does not end in one. */
  lemma {:induction false} JoinSplit(s: string)
    requires Clean(s) && (s == "" || s[|s| - 1] != '\n')
    ensures Join(SplitLines(s)) == s
    decreases |s|
  {
    hide *;
    JoinOne(s);
    if s != "" {
      var k := BreakAt(s);
      SplitFirst(s);
      if k < |s| {
        CleanRest(s, k);
        JoinSplit(s[k + 1..]);
        JoinMoreLines(s[..k], SplitLines(s[k + 1..]));
      }
    }
  }

  lemma {:induction false} JoinMoreLines(line: string, lines: seq<string>)
    requires lines != []
    ensures Join([line] + lines) == line + "\n" + Join(lines)
  {
    assert ([line] + lines)[1..] == lines;
  }

  lemma {:induction false} JoinAppend(a: seq<string>, b: seq<string>)
    requires a != [] && b != []
    ensures Join(a + b) == Join(a) + "\n" + Join(b)
  {
    if |a| == 1 {
      assert (a + b)[1..] == b;
    } else {
      assert (a + b)[1..] == a[1..] + b;
      JoinAppend(a[1..], b);
    }
  }

  lemma {:induction false} JoinClean(lines: seq<string>)
    requires forall i :: 0 <= i < |lines| ==> Clean(lines[i])
    ensures Clean(Join(lines))
  {
    if |lines| > 1 {
      JoinClean(lines[1..]);
    }
  }

  /** A break-free pattern occurs in a joined text exactly when it occurs in one of the parts. */
  lemma {:induction false} ContainsJoin(parts: seq<string>, sub: string)
    requires sub != "" && BreakFree(sub)
    ensures Contains(Join(parts), sub) <==> exists i :: 0 <= i < |parts| && Contains(parts[i], sub)
  {
    if |parts| == 0 {
      assert forall i :: 0 <= i <= |Join(parts)| ==> !At(Join(parts), sub, i);
    } else if |parts| > 1 {
      ContainsJoin(parts[1..], sub);
      ContainsAcross(parts[0], Join(parts[1..]), sub);
      assert forall i :: 0 < i < |parts| ==> parts[i] == parts[1..][i - 1];
      if Contains(Join(parts[1..]), sub) {
        var i :| 0 <= i < |parts[1..]| && Contains(parts[1..][i], sub);
        assert Contains(parts[i + 1], sub);
      }
    }
  }

  /** A break-free pattern never straddles a newline. */
  lemma {:induction false} ContainsAcross(a: string, b: string, sub: string)
    requires sub != "" && BreakFree(sub)
    ensures Contains(a + "\n" + b, sub) <==> Contains(a, sub) || Contains(b, sub)
  {
    var s := a + "\n" + b;
    if Contains(s, sub) {
      var i :| 0 <= i <= |s| && At(s, sub, i);
      AtAcross(a, b, sub, i);
    }
    if Contains(a, sub) {
      var i :| 0 <= i <= |a| && At(a, sub, i);
      assert s[i..i + |sub|] == a[i..i + |sub|];
      assert At(s, sub, i);
    }
    if Contains(b, sub) {
      assert s[|a| + 1..|s|] == b;
      ContainsPart(s, |a| + 1, |s|, sub);
    }
  }

  lemma {:induction false} AtAcross(a: string, b: string, sub: string, i: nat)
    requires sub != "" && BreakFree(sub) && At(a + "\n" + b, sub, i)
    ensures At(a, sub, i) || (|a| < i && At(b, sub, i - |a| - 1))
  {
    NewlineBreaks();
    hide IsBreak, IsSpace;
    var s := a + "\n" + b;
    assert s[|a|] == '\n';
    assert forall k :: i <= k < i + |sub| ==> s[k] == sub[k - i];
    if i + |sub| <= |a| {
      assert s[i..i + |sub|] == a[i..i + |sub|];
    } else if |a| < i {
      assert s[i..i + |sub|] == b[i - |a| - 1..i - |a| - 1 + |sub|];
    } else {
      assert false;
    }
  }

  /** A line of a text is part of the text. */
  lemma {:induction false} LineContained(s: string, j: nat, sub: string)
    requires j < |SplitLines(s)| && Contains(SplitLines(s)[j], sub)
    ensures Contains(s, sub)
    decreases |s|
  {
    var k := BreakAt(s);
    if k < |s| {
      var n := BreakLength(s, k);
      if j == 0 {
        ContainsPart(s, 0, k, sub);
      } else {
        LineContained(s[k + n..], j - 1, sub);
        assert s[k + n..] == s[k + n..|s|];
        ContainsPart(s, k + n, |s|, sub);
      }
    }
  }

  lemma {:induction false} ContainsPart(s: string, from: nat, to: nat, sub: string)
    requires from <= to <= |s| && Contains(s[from..to], sub)
    ensures Contains(s, sub)
  {
    var i :| 0 <= i <= to - from && At(s[from..to], sub, i);
    var part := s[from..to];
    var found := s[from + i..from + i + |sub|];
    forall j | 0 <= j < |sub| ensures found[j] == sub[j] {
      assert part[i..i + |sub|][j] == part[i + j];
    }
    assert At(s, sub, from + i);
  }

  /** A pattern that does not end in whitespace survives stripping the end. */
  lemma {:induction false} ContainsRStrip(s: string, sub: string)
    requires sub != "" && !IsSpace(sub[|sub| - 1])
    ensures Contains(RStrip(s), sub) <==> Contains(s, sub)
  {
    RStripShape(s);
    hide IsSpace, RStrip;
    var r := RStrip(s);
    if Contains(s, sub) {
      var i :| 0 <= i <= |s| && At(s, sub, i);
      assert s[i + |sub| - 1] == sub[|sub| - 1];
      assert r[i..i + |sub|] == s[i..i + |sub|];
      assert At(r, sub, i);
    }
    if Contains(r, sub) {
      assert r == s[0..|r|];
      ContainsPart(s, 0, |r|, sub);
    }
  }

  lemma {:induction false} ContainsLStrip(s: string, sub: string)
    requires sub != "" && !IsSpace(sub[0])
    ensures Contains(LStrip(s), sub) <==> Contains(s, sub)
  {
    LStripShape(s);
    hide IsSpace, LStrip;
    var r := LStrip(s);
    var n := |s| - |r|;
    if Contains(s, sub) {
      var i :| 0 <= i <= |s| && At(s, sub, i);
      assert s[i] == sub[0];
      assert r[i - n..i - n + |sub|] == s[i..i + |sub|];
      assert At(r, sub, i - n);
    }
    if Contains(r, sub) {
      assert r == s[n..|s|];
      ContainsPart(s, n, |s|, sub);
    }
  }

  /** Stripping loses no pattern without whitespace at its ends. */
  lemma {:induction false} ContainsStrip(s: string, sub: string)
    requires sub != "" && !IsSpace(sub[0]) && !IsSpace(sub[|sub| - 1])
    ensures Contains(Strip(s), sub) <==> Contains(s, sub)
  {
    ContainsLStrip(s, sub);
    ContainsRStrip(LStrip(s), sub);
  }

  /** Stripping adds no pattern. */
  lemma {:induction false} StripPart(s: string, sub: string)
    requires Contains(Strip(s), sub)
    ensures Contains(s, sub)
  {
    LStripShape(s);
    var l := LStrip(s);
    RStripShape(l);
    hide IsSpace, LStrip, RStrip;
    ContainsPart(l, 0, |RStrip(l)|, sub);
    assert l == s[|s| - |l|..|s|];
    ContainsPart(s, |s| - |l|, |s|, sub);
  }

  lemma {:induction false} SplitFirst(s: string)
    requires s != ""
    ensures BreakAt(s) == |s| ==> SplitLines(s) == [s]
    ensures BreakAt(s) < |s| ==>
              SplitLines(s) == [s[..BreakAt(s)]] + SplitLines(s[BreakAt(s) + BreakLength(s, BreakAt(s))..])
  {
  }

  lemma {:induction false} AtSlice(s: string, from: nat, to: nat, sub: string, i: nat)
    requires from <= i && i + |sub| <= to <= |s| && At(s, sub, i)
    ensures Contains(s[from..to], sub)
  {
    var part := s[from..to];
    var found := part[i - from..i - from + |sub|];
    forall j | 0 <= j < |sub| ensures found[j] == sub[j] {
      assert s[i..i + |sub|][j] == s[i + j];
    }
    assert At(part, sub, i - from);
  }

  /** A pattern without breaks in a text is in one of its lines. */
  lemma {:induction false} FoundInLine(s: string, sub: string)
    requires sub != "" && BreakFree(sub) && Contains(s, sub)
    ensures exists j :: 0 <= j < |SplitLines(s)| && Contains(SplitLines(s)[j], sub)
    decreases |s|
  {
    var i :| 0 <= i <= |s| && At(s, sub, i);
    var k := BreakAt(s);
    NotAcrossBreak(s, sub, i);
    SplitFirst(s);
    hide IsBreak, BreakAt, SplitLines, BreakFree, Contains, At, BreakLength;
    if i + |sub| <= k {
      AtSlice(s, 0, k, sub, i);
      assert s[0..k] == s[..k] == SplitLines(s)[0];
    } else {
      var n := k + BreakLength(s, k);
      AtSlice(s, n, |s|, sub, i);
      assert s[n..|s|] == s[n..];
      FoundInLine(s[n..], sub);
      FoundLater(s[..k], SplitLines(s[n..]), sub);
    }
  }

  lemma {:induction false} FoundLater(first: string, rest: seq<string>, sub: string)
    requires exists j :: 0 <= j < |rest| && Contains(rest[j], sub)
    ensures exists j :: 0 <= j < |[first] + rest| && Contains(([first] + rest)[j], sub)
  {
    hide Contains;
    var j :| 0 <= j < |rest| && Contains(rest[j], sub);
    assert ([first] + rest)[j + 1] == rest[j];
  }

  /** A break-free pattern occurs in a text exactly when it occurs in one of its lines. */
  lemma {:induction false} ContainsSplit(s: string, sub: string)
    requires sub != "" && BreakFree(sub)
    ensures Contains(s, sub) <==> exists j :: 0 <= j < |SplitLines(s)| && Contains(SplitLines(s)[j], sub)
  {
    if j :| 0 <= j < |SplitLines(s)| && Contains(SplitLines(s)[j], sub) {
      LineContained(s, j, sub);
    } else if Contains(s, sub) {
      FoundInLine(s, sub);
    }
  }

  lemma {:induction false} NotAcrossBreak(s: string, sub: string, i: nat)
    requires sub != "" && BreakFree(sub) && At(s, sub, i)
    ensures i + |sub| <= BreakAt(s) || (BreakAt(s) < |s| && BreakAt(s) + BreakLength(s, BreakAt(s)) <= i)
  {
    NewlineBreaks();
    hide IsBreak, IsSpace;
    var k := BreakAt(s);
    assert forall j :: i <= j < i + |sub| ==> s[j] == sub[j - i];
  }
}
