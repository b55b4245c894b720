/** Deterministic compression of context under a character target. */
module Compression {
  import opened Wrappers
  import opened Text

  datatype Request = Request(content: string, target: nat, preserve: seq<string>, forbidden: seq<string>)

  datatype Backend = NoBackend | Truncate | Extractive | Headroom | Unknown

  datatype Warning = OverTarget | ForbiddenSurvives | FellBack(backend: Backend)

  datatype Compressed = Compressed(
    content: string, backend: Backend, originalChars: nat, compressedChars: nat, factsPreserved: bool,
    warnings: seq<Warning>)

  datatype CompressionError = UnknownBackend | BackendFailed

  predicate HasTerm(terms: seq<string>, text: string) {
    exists i :: 0 <= i < |terms| && Contains(text, terms[i])
  }

  predicate HasAllTerms(terms: seq<string>, text: string) {
    forall i :: 0 <= i < |terms| ==> Contains(text, terms[i])
  }

  // ----- selecting lines -----

  function NonBlank(lines: seq<string>): seq<string> {
    if lines == [] then [] else (if Strip(lines[0]) != "" then [lines[0]] else []) + NonBlank(lines[1..])
  }

  function ContentLines(content: string): seq<string> {
    NonBlank(SplitLines(content))
  }

  function WithTerm(lines: seq<string>, terms: seq<string>): seq<string> {
    if lines == [] then []
    else (if HasTerm(terms, lines[0]) then [lines[0]] else []) + WithTerm(lines[1..], terms)
  }

  function PreserveLines(r: Request): seq<string> {
    WithTerm(ContentLines(r.content), r.preserve)
  }

  /** The lines that may fill up: neither preserved ones nor ones with a forbidden term. */
  function Eligible(lines: seq<string>, preserved: seq<string>, forbidden: seq<string>): seq<string> {
    if lines == [] then []
    else
      (if lines[0] in preserved || HasTerm(forbidden, lines[0]) then [] else [lines[0]])
      + Eligible(lines[1..], preserved, forbidden)
  }

  function Remaining(target: nat, preserved: seq<string>): int {
    target - |Join(preserved)|
  }

  /** A prefix of the lines that fits when joined, and that no further line can extend. */
  ghost predicate LongestFit(filler: seq<string>, lines: seq<string>, room: int) {
    && filler <= lines
    && (filler != [] ==> |Join(filler)| <= room)
    && (|filler| < |lines| ==> |Join(lines[..|filler| + 1])| > room)
  }

  function FitCount(lines: seq<string>, room: int, k: nat): (n: nat)
    requires k <= |lines|
    ensures k <= n <= |lines|
    decreases |lines| - k
  {
    if k < |lines| && |Join(lines[..k + 1])| <= room then FitCount(lines, room, k + 1) else k
  }

  function Fill(lines: seq<string>, room: int): seq<string> {
    lines[..FitCount(lines, room, 0)]
  }

  lemma {:induction false} FitCountFits(lines: seq<string>, room: int, k: nat)
    requires k <= |lines| && (k > 0 ==> |Join(lines[..k])| <= room)
    ensures var n := FitCount(lines, room, k);
            && (n > 0 ==> |Join(lines[..n])| <= room)
            && (n < |lines| ==> |Join(lines[..n + 1])| > room)
    decreases |lines| - k
  {
    if k < |lines| && |Join(lines[..k + 1])| <= room {
      FitCountFits(lines, room, k + 1);
    }
  }

  lemma {:induction false} FillIsLongest(lines: seq<string>, room: int)
    ensures LongestFit(Fill(lines, room), lines, room)
  {
    FitCountFits(lines, room, 0);
  }

  lemma {:induction false} JoinMore(lines: seq<string>, k: nat)
    requires k < |lines|
    ensures |Join(lines[..k + 1])| == |Join(lines[..k])| + |lines[k]| + (if k > 0 then 1 else 0)
  {
    assert lines[..k + 1] == lines[..k] + [lines[k]];
    if k > 0 {
      JoinAppend(lines[..k], [lines[k]]);
    }
  }

  lemma {:induction false} JoinLonger(lines: seq<string>, j: nat, k: nat)
    requires j <= k <= |lines|
    ensures |Join(lines[..j])| <= |Join(lines[..k])|
  {
    if j < k {
      JoinLonger(lines, j, k - 1);
      JoinMore(lines, k - 1);
    }
  }

  /** There is only one longest fitting prefix. */
  lemma {:induction false} LongestFitUnique(a: seq<string>, b: seq<string>, lines: seq<string>, room: int)
    requires LongestFit(a, lines, room) && LongestFit(b, lines, room)
    ensures a == b
  {
    assert a == lines[..|a|] && b == lines[..|b|];
    if |a| < |b| {
      JoinLonger(lines, |a| + 1, |b|);
    } else if |b| < |a| {
      JoinLonger(lines, |b| + 1, |a|);
    }
  }

  lemma {:induction false} NonBlankLines(lines: seq<string>)
    ensures forall l :: l in NonBlank(lines) <==> l in lines && Strip(l) != ""
  {
    hide Strip;
    if lines != [] {
      NonBlankLines(lines[1..]);
      assert forall l :: l in lines <==> l == lines[0] || l in lines[1..];
    }
  }

  lemma {:induction false} EligibleLines(lines: seq<string>, preserved: seq<string>, forbidden: seq<string>)
    ensures forall l :: l in Eligible(lines, preserved, forbidden) <==>
              l in lines && l !in preserved && !HasTerm(forbidden, l)
  {
    hide HasTerm;
    if lines != [] {
      EligibleLines(lines[1..], preserved, forbidden);
      assert forall l :: l in lines <==> l == lines[0] || l in lines[1..];
    }
  }

  lemma {:induction false} WithTermLines(lines: seq<string>, terms: seq<string>)
    ensures forall l :: l in WithTerm(lines, terms) <==> l in lines && HasTerm(terms, l)
  {
    hide HasTerm;
    if lines != [] {
      WithTermLines(lines[1..], terms);
      assert forall l :: l in lines <==> l == lines[0] || l in lines[1..];
    }
  }

  lemma {:induction false} NothingFits(lines: seq<string>, room: int)
    requires room <= 0 && forall l :: l in lines ==> l != ""
    ensures LongestFit([], lines, room)
  {
    if lines != [] {
      assert lines[..1] == [lines[0]] && lines[0] in lines;
      assert Join([lines[0]]) == lines[0];
    }
  }

  lemma {:induction false} Longest(filler: seq<string>, lines: seq<string>, room: int)
    requires filler <= lines && (filler != [] ==> |Join(filler)| <= room)
    requires |filler| < |lines| ==> |Join(lines[..|filler| + 1])| > room
    ensures LongestFit(filler, lines, room)
  {
  }

  lemma {:induction false} EligibleFrom(lines: seq<string>, i: nat, preserved: seq<string>, forbidden: seq<string>)
    requires i < |lines|
    ensures Eligible(lines[i..], preserved, forbidden)
            == (if lines[i] in preserved || HasTerm(forbidden, lines[i]) then [] else [lines[i]])
               + Eligible(lines[i + 1..], preserved, forbidden)
  {
  }

  lemma {:induction false} EligibleEnd(lines: seq<string>, preserved: seq<string>, forbidden: seq<string>)
    ensures Eligible(lines[|lines|..], preserved, forbidden) == []
  {
  }

  lemma {:induction false} EligibleNonEmpty(content: string, preserved: seq<string>, forbidden: seq<string>)
    ensures forall l :: l in Eligible(ContentLines(content), preserved, forbidden) ==> l != ""
  {
    NonBlankLines(SplitLines(content));
    EligibleLines(ContentLines(content), preserved, forbidden);
    StripEmpty();
    hide Strip, NonBlank, Eligible, SplitLines;
  }

  lemma {:induction false} StripEmpty()
    ensures Strip("") == ""
  {
  }

  lemma {:induction false} NextEligible(lines: seq<string>, filler: seq<string>, line: string, rest: seq<string>)
    requires lines == filler + ([line] + rest)
    ensures filler <= lines && |filler| < |lines| && lines == (filler + [line]) + rest
    ensures lines[..|filler| + 1] == filler + [line]
    ensures |Join(filler + [line])| == |Join(filler)| + |line| + (if filler != [] then 1 else 0)
  {
    assert lines[..|filler|] == filler && lines[..|filler| + 1] == filler + [line];
    JoinMore(lines, |filler|);
  }

  method FillerLines(r: Request, preserved: seq<string>, room: int) returns (filler: seq<string>)
    ensures LongestFit(filler, Eligible(ContentLines(r.content), preserved, r.forbidden), room)
  {
    var lines := ContentLines(r.content);
    ghost var eligible := Eligible(lines, preserved, r.forbidden);
    EligibleNonEmpty(r.content, preserved, r.forbidden);
    assert Join([]) == "";
    hide *;
    filler := [];
    if room <= 0 {
      NothingFits(eligible, room);
      return;
    }
    var used := 0;
    assert eligible == [] + Eligible(lines[0..], preserved, r.forbidden) by { assert lines[0..] == lines; }
    for i := 0 to |lines|
      invariant eligible == filler + Eligible(lines[i..], preserved, r.forbidden)
      invariant used == |Join(filler)| && (filler != [] ==> used <= room)
    {
      EligibleFrom(lines, i, preserved, r.forbidden);
      ghost var rest := Eligible(lines[i + 1..], preserved, r.forbidden);
      if lines[i] in preserved || HasTerm(r.forbidden, lines[i]) {
        assert [] + rest == rest;
        continue;
      }
      NextEligible(eligible, filler, lines[i], rest);
      var next := used + |lines[i]| + (if filler != [] then 1 else 0);
      if next > room {
        Longest(filler, eligible, room);
        return;
      }
      filler := filler + [lines[i]];
      used := next;
    }
    EligibleEnd(lines, preserved, r.forbidden);
    Longest(filler, eligible, room);
  }

  // ----- compressing -----

  function Filler(r: Request): seq<string> {
    var preserved := PreserveLines(r);
    Fill(Eligible(ContentLines(r.content), preserved, r.forbidden), Remaining(r.target, preserved))
  }

  function ExtractiveContent(r: Request): string {
    Strip(Join(PreserveLines(r) + Filler(r)))
  }

  function ForbiddenWarnings(r: Request, content: string): seq<Warning> {
    if HasTerm(r.forbidden, content) then [ForbiddenSurvives] else []
  }

  function ResultFor(r: Request, content: string, backend: Backend, warnings: seq<Warning>): Compressed {
    Compressed(content, backend, |r.content|, |content|, HasAllTerms(r.preserve, content), warnings)
  }

  function ExtractiveCompress(r: Request): Compressed {
    var content := ExtractiveContent(r);
    var over: seq<Warning> := if |content| <= r.target then [] else [OverTarget];
    ResultFor(r, content, Extractive, over + ForbiddenWarnings(r, content))
  }

  method ExtractiveContentByLoop(r: Request) returns (content: string)
    ensures content == ExtractiveContent(r)
  {
    var preserved := PreserveLines(r);
    var eligible := Eligible(ContentLines(r.content), preserved, r.forbidden);
    var room := Remaining(r.target, preserved);
    var filler := FillerLines(r, preserved, room);
    FillIsLongest(eligible, room);
    LongestFitUnique(filler, Fill(eligible, room), eligible, room);
    content := Strip(Join(preserved + filler));
  }

  function TruncateCompress(r: Request): Compressed {
    var content := if |r.content| > r.target then r.content[..r.target] else r.content;
    ResultFor(r, content, Truncate, ForbiddenWarnings(r, content))
  }

  /** `headroom` is the answer of the optional dependency. */
  function Compress(
    r: Request, backend: Backend, headroom: Result<string, CompressionError>): Result<Compressed, CompressionError>
  {
    var selected :=
      match backend
      case NoBackend => Ok(ResultFor(r, r.content, NoBackend, ForbiddenWarnings(r, r.content)))
      case Truncate => Ok(TruncateCompress(r))
      case Extractive => Ok(ExtractiveCompress(r))
      case Headroom =>
        (match headroom
         case Ok(text) => Ok(ResultFor(r, text, Headroom, ForbiddenWarnings(r, text)))
         case Err(e) => Err(e))
      case Unknown => Err(UnknownBackend);
    match selected
    case Err(e) => Err(e)
    case Ok(result) =>
      if result.factsPreserved || backend == Extractive then Ok(result)
      else
        var fallback := ExtractiveCompress(r);
        Ok(fallback.(warnings := fallback.warnings + [FellBack(backend)]))
  }

  // ----- the size of an extract -----

  lemma {:induction false} JoinBoth(a: seq<string>, b: seq<string>)
    ensures |Join(a + b)| == |Join(a)| + |Join(b)| + (if a != [] && b != [] then 1 else 0)
  {
    if a == [] {
      assert a + b == b;
    } else if b == [] {
      assert a + b == a;
    } else {
      JoinAppend(a, b);
    }
  }

  lemma {:induction false} StripShorter(s: string)
    ensures |Strip(s)| <= |s|
  {
  }

  /**
   An extract is no longer than the target and one separator, unless the preserved lines alone are;
   without preserved lines it keeps to the target.
   */
  lemma {:induction false} ExtractBounded(r: Request)
    ensures |ExtractiveContent(r)| <= r.target + 1 || |ExtractiveContent(r)| <= |Join(PreserveLines(r))|
    ensures PreserveLines(r) == [] ==>
      |ExtractiveContent(r)| <= r.target && OverTarget !in ExtractiveCompress(r).warnings
  {
    var preserved := PreserveLines(r);
    var filler := Filler(r);
    FillIsLongest(Eligible(ContentLines(r.content), preserved, r.forbidden), Remaining(r.target, preserved));
    JoinBoth(preserved, filler);
    StripShorter(Join(preserved + filler));
    assert Join([]) == "";
    hide PreserveLines, Filler, Join, Strip, HasTerm, HasAllTerms;
  }

  predicate NoneEmpty(lines: seq<string>) {
    forall i :: 0 <= i < |lines| ==> lines[i] != ""
  }

  /** The first line starts or the last line ends in whitespace, which is stripped there. */
  predicate EdgeStripped(lines: seq<string>)
    requires lines != [] && NoneEmpty(lines)
  {
    IsSpace(lines[0][0]) || IsSpace(lines[|lines| - 1][|lines[|lines| - 1]| - 1])
  }

  lemma {:induction false} JoinEnds(lines: seq<string>)
    requires lines != [] && NoneEmpty(lines)
    ensures var s, last := Join(lines), lines[|lines| - 1];
            s != "" && s[0] == lines[0][0] && s[|s| - 1] == last[|last| - 1]
  {
    if |lines| > 1 {
      JoinEnds(lines[1..]);
      assert lines[1..][|lines| - 2] == lines[|lines| - 1];
    }
  }

  /** Stripping shortens a text exactly when it has whitespace at an end. */
  lemma {:induction false} StripShortens(s: string)
    requires s != ""
    ensures |Strip(s)| < |s| <==> IsSpace(s[0]) || IsSpace(s[|s| - 1])
  {
    hide IsSpace;
    LStripShape(s);
    RStripShape(LStrip(s));
    if !IsSpace(s[0]) && !IsSpace(s[|s| - 1]) {
      hide LStrip, RStrip;
      LStripUnique(s, s);
      RStripUnique(s, s);
    }
  }

  /** The chosen lines are not empty, and there is no filler where there is no room. */
  lemma {:induction false} ChosenLines(r: Request)
    ensures NoneEmpty(PreserveLines(r) + Filler(r))
    ensures Remaining(r.target, PreserveLines(r)) <= 0 ==> Filler(r) == []
    ensures Filler(r) != [] ==> |Join(Filler(r))| <= Remaining(r.target, PreserveLines(r))
  {
    var preserved := PreserveLines(r);
    var lines := ContentLines(r.content);
    var eligible, room := Eligible(lines, preserved, r.forbidden), Remaining(r.target, preserved);
    NonBlankLines(SplitLines(r.content));
    WithTermLines(lines, r.preserve);
    EligibleNonEmpty(r.content, preserved, r.forbidden);
    StripEmpty();
    FillIsLongest(eligible, room);
    if room <= 0 {
      NothingFits(eligible, room);
      LongestFitUnique(Filler(r), [], eligible, room);
    }
    hide Strip, SplitLines, NonBlank, WithTerm, Eligible, HasTerm, Join;
    forall i | 0 <= i < |preserved + Filler(r)| ensures (preserved + Filler(r))[i] != "" {
      if i < |preserved| {
        assert preserved[i] in preserved;
      } else {
        assert eligible[i - |preserved|] in eligible && Filler(r)[i - |preserved|] == eligible[i - |preserved|];
      }
    }
  }

  /**
   When an extract overruns its target, and so warns. If the preserved lines fit, it does exactly when
   the filler uses up all the room left and the separator in front of it comes on top, no end being
   stripped. If they do not, it does exactly when they do not fit after stripping either.
   */
  lemma {:induction false} OverrunIff(r: Request)
    ensures OverTarget in ExtractiveCompress(r).warnings <==> |ExtractiveContent(r)| > r.target
    ensures NoneEmpty(PreserveLines(r) + Filler(r))
    ensures var preserved, filler := PreserveLines(r), Filler(r);
            |Join(preserved)| <= r.target ==>
              (|ExtractiveContent(r)| > r.target <==>
                 && preserved != [] && filler != [] && |Join(preserved)| + |Join(filler)| == r.target
                 && !EdgeStripped(preserved + filler))
    ensures |Join(PreserveLines(r))| > r.target ==> ExtractiveContent(r) == Strip(Join(PreserveLines(r)))
  {
    var preserved, filler := PreserveLines(r), Filler(r);
    var all := preserved + filler;
    ChosenLines(r);
    JoinBoth(preserved, filler);
    StripShorter(Join(all));
    assert Join([]) == "";
    hide PreserveLines, Filler, Join, Strip, HasTerm, HasAllTerms, IsSpace, NoneEmpty;
    if all != [] {
      JoinEnds(all);
      StripShortens(Join(all));
    }
    if filler == [] {
      assert all == preserved;
    }
  }

  lemma {:induction false} OverrunLines()
    ensures SplitLines("a\nb") == ["a", "b"] && NonBlank(["a", "b"]) == ["a", "b"]
  {
    PlainText("a");
    PlainText("b");
    hide IsBreak, IsSpace, RStrip, LStrip, SplitLines;
    assert Join(["a", "b"]) == "a\nb";
    SplitJoin(["a", "b"]);
    assert NonBlank(["b"]) == ["b"];
  }

  lemma {:induction false} OverrunPreserved()
    ensures WithTerm(["a", "b"], ["a"]) == ["a"]
  {
    OneLetter("a", "a");
    OneLetter("b", "a");
    hide Contains;
    assert Contains("a", ["a"][0]) && !Contains("b", ["a"][0]);
    assert WithTerm(["b"], ["a"]) == [];
  }

  lemma {:induction false} OverrunFiller()
    ensures Fill(Eligible(["a", "b"], ["a"], []), 1) == ["b"]
  {
  }

  /** The separator before the filler is not counted, so the target is overrun by one even when nothing required it. */
  lemma {:induction false} SeparatorOverruns()
    ensures var r := Request("a\nb", 2, ["a"], []);
            ExtractiveContent(r) == "a\nb" && ExtractiveCompress(r).warnings == [OverTarget]
  {
    var r := Request("a\nb", 2, ["a"], []);
    OverrunLines();
    OverrunPreserved();
    OverrunFiller();
    PlainEnds("a\nb");
    OverrunJoin();
    hide Contains, Strip, Join, SplitLines, NonBlank, WithTerm, Eligible, Fill;
    assert ExtractiveContent(r) == "a\nb";
  }

  lemma {:induction false} OverrunJoin()
    ensures Join(["a"]) == "a" && Join(["a"] + ["b"]) == "a\nb"
  {
  }

  lemma {:induction false} OneLetter(line: string, term: string)
    requires |line| == 1 && |term| == 1
    ensures Contains(line, term) <==> line == term
  {
    assert At(line, term, 0) <==> line == term;
    assert forall i :: 0 < i <= |line| ==> !At(line, term, i);
  }

  lemma {:induction false} PlainEnds(s: string)
    requires s != "" && ' ' < s[0] <= '~' && ' ' < s[|s| - 1] <= '~'
    ensures Strip(s) == s
  {
    PrintableIsNoSpace(s[0]);
    PrintableIsNoSpace(s[|s| - 1]);
    hide IsSpace, RStrip, LStrip;
    LStripUnique(s, s);
    RStripUnique(s, s);
  }

  // ----- what an extract preserves -----

  /** A term without breaks and without whitespace at its ends. */
  predicate Solid(term: string) {
    term != "" && BreakFree(term) && !IsSpace(term[0]) && !IsSpace(term[|term| - 1])
  }

  lemma {:induction false} SolidIsNotBlank(line: string, term: string)
    requires Solid(term) && Contains(line, term)
    ensures Strip(line) != ""
  {
    ContainsStrip(line, term);
    hide IsSpace, Strip;
    var i :| 0 <= i <= |Strip(line)| && At(Strip(line), term, i);
  }

  /** Each solid preserve term is in the extract exactly when it is in the source. */
  lemma {:induction false} ExtractKeepsTerm(r: Request, term: string)
    requires term in r.preserve && Solid(term)
    ensures Contains(ExtractiveContent(r), term) <==> Contains(r.content, term)
  {
    var lines := SplitLines(r.content);
    var kept := PreserveLines(r) + Filler(r);
    ContainsSplit(r.content, term);
    ContainsStrip(Join(kept), term);
    ContainsJoin(kept, term);
    KeptLines(r);
    hide IsSpace, IsBreak, Strip, Join, SplitLines, PreserveLines, Filler;
    if j :| 0 <= j < |lines| && Contains(lines[j], term) {
      SolidIsNotBlank(lines[j], term);
      assert HasTerm(r.preserve, lines[j]);
      assert lines[j] in kept;
    }
    if i :| 0 <= i < |kept| && Contains(kept[i], term) {
      assert kept[i] in lines;
    }
  }

  /** The lines of an extract are lines of the source, among them every one with a preserve term. */
  lemma {:induction false} KeptLines(r: Request)
    ensures forall l :: l in PreserveLines(r) + Filler(r) ==> l in SplitLines(r.content)
    ensures forall l :: l in SplitLines(r.content) && Strip(l) != "" && HasTerm(r.preserve, l) ==>
      l in PreserveLines(r) + Filler(r)
    ensures forall l :: l in Filler(r) ==> !HasTerm(r.forbidden, l)
  {
    var lines := ContentLines(r.content);
    NonBlankLines(SplitLines(r.content));
    WithTermLines(lines, r.preserve);
    EligibleLines(lines, PreserveLines(r), r.forbidden);
    hide HasTerm, Strip, SplitLines, NonBlank, WithTerm, Eligible;
  }

  /**
   Whatever the backend, compression loses no solid preserve term of the source: a backend that
   drops one is replaced by the extract, which keeps them all.
   */
  lemma {:induction false} CompressKeepsTerms(
    r: Request, backend: Backend, headroom: Result<string, CompressionError>, term: string)
    requires term in r.preserve && Solid(term) && Contains(r.content, term)
    requires Compress(r, backend, headroom).Ok?
    ensures Contains(Compress(r, backend, headroom).value.content, term)
  {
    ExtractKeepsTerm(r, term);
    var i :| 0 <= i < |r.preserve| && r.preserve[i] == term;
    hide Solid, ExtractiveContent, HasTerm, Contains;
  }

  /** An extract of solid terms preserves all the facts exactly when the source held them. */
  lemma {:induction false} FactsPreservedIff(r: Request)
    requires forall t :: t in r.preserve ==> Solid(t)
    ensures ExtractiveCompress(r).factsPreserved <==> HasAllTerms(r.preserve, r.content)
  {
    forall t | t in r.preserve ensures Contains(ExtractiveContent(r), t) <==> Contains(r.content, t) {
      ExtractKeepsTerm(r, t);
    }
    hide Solid, ExtractiveContent, HasTerm, Contains;
  }

  /** A break-free forbidden term survives in an extract only through a preserved line. */
  lemma {:induction false} ForbiddenOnlyThroughPreserved(r: Request, term: string)
    requires term in r.forbidden && term != "" && BreakFree(term) && Contains(ExtractiveContent(r), term)
    ensures exists i :: 0 <= i < |PreserveLines(r)| && Contains(PreserveLines(r)[i], term)
  {
    var preserved, filler := PreserveLines(r), Filler(r);
    var kept := preserved + filler;
    StripPart(Join(kept), term);
    ContainsJoin(kept, term);
    KeptLines(r);
    hide IsBreak, Strip, Join, SplitLines, PreserveLines, Filler, Contains;
    var i :| 0 <= i < |kept| && Contains(kept[i], term);
    if i < |preserved| {
      assert Contains(preserved[i], term);
    } else {
      assert kept[i] in filler;
      CleanLine(kept[i], r.forbidden, term);
    }
  }

  lemma {:induction false} CleanLine(line: string, terms: seq<string>, term: string)
    requires !HasTerm(terms, line) && term in terms
    ensures !Contains(line, term)
  {
  }
}
