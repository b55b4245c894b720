/**
 When merging the managed block again changes nothing, which is what the status check relies on.
 */
module CodexMerge {
  import opened Wrappers
  import opened Text
  import opened CodexConfig
  import opened CodexLines
  import opened CodexFeatures

  // ----- cutting the block out again -----

  /** The marker name holds no hash sign and no line break. */
  predicate PlainMarker(marker: string) {
    BreakFree(marker) && '#' !in marker
  }

  /** The fenced block as it is rendered. */
  function Block(body: string, marker: string): string {
    (StartMarker(marker) + "\n" + body) + "\n" + (EndMarker(marker) + "\n")
  }

  lemma {:induction false} MarkerFacts(marker: string)
    requires PlainMarker(marker)
    ensures BreakFree(StartMarker(marker)) && BreakFree(EndMarker(marker))
    ensures !Contains(StartMarker(marker), EndMarker(marker))
  {
    var start, end := StartMarker(marker), EndMarker(marker);
    FixedPartsBreakFree();
    BreakFreeAppend("# >>> ", marker);
    BreakFreeAppend("# >>> " + marker, " >>>");
    BreakFreeAppend("# <<< ", marker);
    BreakFreeAppend("# <<< " + marker, " <<<");
    hide IsBreak;
    assert |start| == |end| && start[0..|end|] == start;
    assert start[2] == '>' && end[2] == '<';
    assert forall i :: 0 <= i <= |start| && At(start, end, i) ==> i == 0;
  }

  lemma {:induction false} FixedPartsBreakFree()
    ensures BreakFree("# >>> ") && BreakFree("# <<< ") && BreakFree(" >>>") && BreakFree(" <<<")
  {
    PlainIsNoBreak('#');
    PlainIsNoBreak(' ');
    PlainIsNoBreak('<');
    PlainIsNoBreak('>');
    hide IsBreak;
  }

  lemma {:induction false} BreakFreeAppend(a: string, b: string)
    ensures BreakFree(a + b) <==> BreakFree(a) && BreakFree(b)
  {
    hide IsBreak;
    assert forall i :: 0 <= i < |a| ==> (a + b)[i] == a[i];
    assert forall i :: 0 <= i < |b| ==> (a + b)[|a| + i] == b[i];
    assert forall i :: |a| <= i < |a + b| ==> (a + b)[i] == b[i - |a|];
  }

  lemma {:induction false} FirstIndex(s: string, sub: string, from: nat, i: nat)
    requires from <= i && At(s, sub, i)
    requires forall j :: from <= j < i ==> !At(s, sub, j)
    ensures IndexFrom(s, sub, from) == Some(i)
  {
  }

  /** The first occurrence of a pattern that starts right after a newline. */
  lemma {:induction false} FirstAcross(s: string, before: string, a: string, b: string, sub: string)
    requires s == before + (a + "\n" + b)
    requires sub != "" && BreakFree(sub) && !Contains(a, sub) && At(b, sub, 0)
    ensures IndexFrom(s, sub, |before|) == Some(|before| + |a| + 1)
  {
    hide BreakFree, At, Contains, IndexFrom;
    var e := |before| + |a| + 1;
    AtEnd(before, a, b, sub);
    forall j | |before| <= j < e ensures !At(s, sub, j) {
      NotWithin(before, a, b, sub, j);
    }
    FirstIndex(s, sub, |before|, e);
  }

  lemma {:induction false} AtEnd(before: string, a: string, b: string, sub: string)
    requires At(b, sub, 0)
    ensures At(before + (a + "\n" + b), sub, |before| + |a| + 1)
  {
  }

  lemma {:induction false} NotWithin(before: string, a: string, b: string, sub: string, j: nat)
    requires sub != "" && BreakFree(sub) && !Contains(a, sub) && |before| <= j <= |before| + |a|
    ensures !At(before + (a + "\n" + b), sub, j)
  {
    hide BreakFree, At;
    AtShift(before, a + "\n" + b, sub, j);
    if At(a + "\n" + b, sub, j - |before|) {
      AtAcross(a, b, sub, j - |before|);
    }
  }

  lemma {:induction false} AtShift(before: string, t: string, sub: string, j: nat)
    requires |before| <= j
    ensures At(before + t, sub, j) <==> At(t, sub, j - |before|)
  {
  }

  /** The first start marker after a text without one is that of the appended block. */
  lemma {:induction false} StartOfBlock(core: string, body: string, marker: string)
    requires PlainMarker(marker) && !Contains(core, StartMarker(marker))
    ensures IndexFrom(core + "\n\n" + Block(body, marker), StartMarker(marker), 0) == Some(|core| + 2)
  {
    hide IsBreak, BreakFree, Contains, StartMarker, EndMarker, At;
    var start, block := StartMarker(marker), Block(body, marker);
    MarkerFacts(marker);
    BlockEnds(body, marker);
    ContainsAcross(core, "", start);
    NothingContains(start);
    assert core + "\n" + "" == core + "\n";
    assert "" + ((core + "\n") + "\n" + block) == core + "\n\n" + block;
    FirstAcross(core + "\n\n" + block, "", core + "\n", block, start);
  }

  lemma {:induction false} NothingContains(sub: string)
    requires sub != ""
    ensures !Contains("", sub)
  {
  }

  lemma {:induction false} BlockEnds(body: string, marker: string)
    ensures StartMarker(marker) != "" && EndMarker(marker) != ""
    ensures At(Block(body, marker), StartMarker(marker), 0) && At(EndMarker(marker) + "\n", EndMarker(marker), 0)
  {
  }

  /** The first end marker after the start marker of the block closes the block. */
  lemma {:induction false} EndOfBlock(before: string, body: string, marker: string)
    requires PlainMarker(marker) && !Contains(body, EndMarker(marker))
    ensures IndexFrom(before + Block(body, marker), EndMarker(marker), |before|)
            == Some(|before| + |StartMarker(marker)| + |body| + 2)
  {
    hide IsBreak, BreakFree, Contains, StartMarker, EndMarker, At;
    MarkerFacts(marker);
    BlockEnds(body, marker);
    ContainsAcross(StartMarker(marker), body, EndMarker(marker));
    FencedEnd(before + Block(body, marker), before, StartMarker(marker) + "\n" + body, EndMarker(marker) + "\n",
        marker);
  }

  lemma {:induction false} FencedEnd(s: string, before: string, fenced: string, tail: string, marker: string)
    requires s == before + (fenced + "\n" + tail)
    requires EndMarker(marker) != "" && BreakFree(EndMarker(marker))
    requires !Contains(fenced, EndMarker(marker)) && At(tail, EndMarker(marker), 0)
    ensures IndexFrom(s, EndMarker(marker), |before|) == Some(|before| + |fenced| + 1)
  {
    hide *;
    FirstAcross(s, before, fenced, tail, EndMarker(marker));
  }

  /** Cutting the appended block leaves the text in front of it. */
  lemma {:induction false} BlockCutsOut(core: string, body: string, marker: string)
    requires PlainMarker(marker) && !Contains(body, EndMarker(marker))
    requires !Contains(core, StartMarker(marker))
    ensures StripBlock(core + "\n\n" + Block(body, marker), marker) == Ok(core + "\n\n\n")
  {
    hide IsBreak, BreakFree, StartMarker, EndMarker, At, IndexFrom;
    var start, end := StartMarker(marker), EndMarker(marker);
    var s, rest := core + "\n\n" + Block(body, marker), core + "\n\n\n";
    StartOfBlock(core, body, marker);
    EndOfBlock(core + "\n\n", body, marker);
    MarkerFacts(marker);
    BlockEnds(body, marker);
    NoMarkerAfter(core, start);
    assert Contains(s, start) && Contains(s, end);
    var e := |core| + 2 + |start| + |body| + 2;
    assert s[..|core| + 2] == core + "\n\n" && s[e + |end|..] == "\n";
    assert s[..|core| + 2] + s[e + |end|..] == rest;
    assert CutOnce(s, marker) == Shorter(rest);
    assert CutOnce(rest, marker) == Whole;
  }

  lemma {:induction false} NoMarkerAfter(core: string, start: string)
    requires start != "" && BreakFree(start) && !Contains(core, start)
    ensures !Contains(core + "\n\n\n", start)
  {
    hide Contains, BreakFree;
    NothingContains(start);
    ContainsAcross(core, "", start);
    ContainsAcross("", "", start);
    ContainsAcross(core + "\n" + "", "" + "\n" + "", start);
    assert (core + "\n" + "") + "\n" + ("" + "\n" + "") == core + "\n\n\n";
  }

  // ----- the text in front of the block, line by line -----

  predicate HasFeatures(lines: seq<string>) {
    Scan(lines, 0, None).0.Some?
  }

  /** The lines left after dropping old hook sections and stripping the end. */
  function BareLines(content: string): seq<string> {
    TrimLines(RemainingLines(RStrip(content)))
  }

  function CoreLines(content: string): seq<string> {
    var bare := BareLines(content);
    if bare == [] then [FEATURES, HOOK_FEATURE]
    else if HasFeatures(bare) then TrimLines(EnsureLines(bare))
    else [FEATURES, HOOK_FEATURE, ""] + bare
  }

  /** Text lines whose last line is stripped. */
  predicate Stripped(lines: seq<string>) {
    TextLines(lines) && TrimLines(lines) == lines
  }

  lemma {:induction false} StrippedText(lines: seq<string>)
    requires Stripped(lines)
    ensures SplitLines(Join(lines)) == lines
    ensures RStrip(Join(lines)) == Join(lines)
    ensures Clean(Join(lines))
    ensures Blank(Join(lines)) <==> lines == []
  {
    SplitJoin(lines);
    TrimJoin(lines);
    RStripBlank(Join(lines));
    hide TrimLines, RStrip, Blank, IsBreak;
    JoinClean(lines);
    if lines != [] {
      assert SplitLines("") == [];
    }
  }

  lemma {:induction false} TrimStripped(lines: seq<string>)
    requires forall i :: 0 <= i < |lines| ==> BreakFree(lines[i])
    ensures Stripped(TrimLines(lines))
  {
    hide BreakFree, Blank, RStrip, Stripped;
    if lines == [] {
      NothingStripped();
    } else {
      var init, last := lines[..|lines| - 1], lines[|lines| - 1];
      if Blank(last) {
        TrimStripped(init);
      } else {
        RStripTwice(last);
        RStripShape(last);
        PrefixBreakFree(last, RStrip(last));
        PlainTrim(init, RStrip(last));
      }
    }
  }

  lemma {:induction false} NothingStripped()
    ensures Stripped([])
  {
  }

  lemma {:induction false} BareIs(content: string)
    ensures Stripped(BareLines(content))
    ensures RStrip(StripPrevious(RStrip(content))) == Join(BareLines(content))
  {
    hide RStrip, TrimLines, RemainingLines, StripPrevious, BreakFree, Stripped;
    StripPreviousLines(RStrip(content));
    TrimJoin(RemainingLines(RStrip(content)));
    TrimStripped(RemainingLines(RStrip(content)));
  }

  lemma {:induction false} EnsureBreakFree(lines: seq<string>)
    requires HasFeatures(lines) && forall i :: 0 <= i < |lines| ==> BreakFree(lines[i])
    ensures forall i :: 0 <= i < |EnsureLines(lines)| ==> BreakFree(EnsureLines(lines)[i])
  {
    hide BreakFree, Scan, Normalized;
    ScanFinds(lines, 0, None);
    var (s, e) := Scan(lines, 0, None);
    NormalizedBreakFree(lines[s.value..e], false);
  }

  lemma {:induction false} NormalizedBreakFree(lines: seq<string>, inserted: bool)
    requires forall i :: 0 <= i < |lines| ==> BreakFree(lines[i])
    ensures forall i :: 0 <= i < |Normalized(lines, inserted)| ==> BreakFree(Normalized(lines, inserted)[i])
  {
    hide BreakFree, IsHooksLine;
    HookLine();
    if lines != [] {
      NormalizedBreakFree(lines[1..], inserted || IsHooksLine(lines[0]));
    }
  }

  lemma {:induction false} CoreStripped(content: string)
    ensures Stripped(CoreLines(content)) && CoreLines(content) != []
  {
    hide TrimLines, RStrip, BreakFree, Blank, RemainingLines, Scan, EnsureLines, LStrip, IsFeatures;
    hide IsHooksLine, LineWeight;
    BareIs(content);
    AddedLines();
    var bare := BareLines(content);
    if bare == [] {
      PlainTrim([FEATURES], HOOK_FEATURE);
      assert [FEATURES] + [HOOK_FEATURE] == [FEATURES, HOOK_FEATURE];
    } else if HasFeatures(bare) {
      EnsureBreakFree(bare);
      TrimStripped(EnsureLines(bare));
      EnsureEnables(bare);
      EnabledNonEmpty(TrimLines(EnsureLines(bare)));
    } else {
      var init, last := bare[..|bare| - 1], bare[|bare| - 1];
      TrimShape(bare);
      assert [FEATURES, HOOK_FEATURE, ""] + bare == ([FEATURES, HOOK_FEATURE, ""] + init) + [last];
      NoCharBreakFree();
      PlainTrim([FEATURES, HOOK_FEATURE, ""] + init, last);
    }
  }

  lemma {:induction false} NoCharBreakFree()
    ensures BreakFree("")
  {
  }

  lemma {:induction false} EnabledNonEmpty(lines: seq<string>)
    requires Enabled(lines)
    ensures lines != []
  {
  }

  lemma {:induction false} PlainTrim(init: seq<string>, last: string)
    requires !Blank(last) && RStrip(last) == last && BreakFree(last)
    requires forall i :: 0 <= i < |init| ==> BreakFree(init[i])
    ensures Stripped(init + [last])
  {
  }

  lemma {:induction false} CoreIs(content: string)
    ensures CoreOf(content) == Join(CoreLines(content))
  {
    hide TrimLines, RStrip, BreakFree, Blank, RemainingLines, Scan, EnsureLines, StripPrevious, LStrip;
    var bare := BareLines(content);
    BareIs(content);
    StrippedText(bare);
    CoreStripped(content);
    StrippedText(CoreLines(content));
    if bare == [] {
      assert [FEATURES, HOOK_FEATURE][1..] == [HOOK_FEATURE];
      assert Join([FEATURES, HOOK_FEATURE]) == FEATURES + "\n" + HOOK_FEATURE;
    } else if HasFeatures(bare) {
      TrimJoin(EnsureLines(bare));
    } else {
      JoinAppend([FEATURES, HOOK_FEATURE, ""], bare);
      assert [FEATURES, HOOK_FEATURE, ""][1..] == [HOOK_FEATURE, ""] && [HOOK_FEATURE, ""][1..] == [""];
      assert Join([HOOK_FEATURE, ""]) == HOOK_FEATURE + "\n" + "";
      assert Join([FEATURES, HOOK_FEATURE, ""]) == FEATURES + "\n" + (HOOK_FEATURE + "\n" + "");
      assert FEATURES + "\n" + HOOK_FEATURE + "\n\n" + Join(bare)
          == FEATURES + "\n" + (HOOK_FEATURE + "\n" + "") + "\n" + Join(bare);
    }
  }
}
