/**
 The exact condition under which merging the managed Codex block is idempotent.
 */
module CodexStability {
  import opened Wrappers
  import opened Text
  import opened CodexConfig
  import opened CodexLines
  import opened CodexFeatures
  import opened CodexMerge

  /** No hooks line comes before the first header. */
  ghost predicate QuietPrefix(lines: seq<string>) {
    forall k :: 0 <= k < |lines| && IsHooksLine(lines[k]) ==> exists h :: 0 <= h < k && IsHeader(lines[h])
  }

  /**
   The text in front of the block is in final form: none of its sections is dropped or has an
   end to strip, and if the features section had to be added, the lines it now precedes hold
   no hooks line before their first header.
   */
  ghost predicate Final(stripped: string) {
    && Settled(CoreOf(stripped))
    && (BareLines(stripped) == [] || HasFeatures(BareLines(stripped)) || QuietPrefix(BareLines(stripped)))
  }

  // ----- features lines survive -----

  lemma {:induction false} FeaturesFound(lines: seq<string>, i: nat)
    requires i < |lines| && IsFeatures(lines[i])
    ensures HasFeatures(lines)
  {
    hide IsFeatures, IsHeader;
    ScanFinds(lines, 0, None);
  }

  lemma {:induction false} TrimKeepsFirst(lines: seq<string>)
    requires lines != [] && lines[0] == FEATURES
    ensures TrimLines(lines) != [] && TrimLines(lines)[0] == FEATURES
  {
    hide TrimLines, RStrip, Blank, LStrip, BreakFree, IsFeatures, LineWeight;
    FeaturesLine();
    TrimShape(lines);
  }

  /** A text that starts with the features header keeps it. */
  lemma {:induction false} FirstLineSurvives(lines: seq<string>)
    requires Stripped(lines) && lines != [] && lines[0] == FEATURES
    ensures BareLines(Join(lines)) != [] && HasFeatures(BareLines(Join(lines)))
  {
    hide TrimLines, RStrip, Blank, LStrip, BreakFree, IsFeatures, LineWeight, FirstLine, Scan, Dropped, Join;
    StrippedText(lines);
    FeaturesLine();
    var groups := Groups(lines);
    var sections := Sections(Join(lines));
    GroupsBreakFree(lines);
    FirstLineOf(groups[0]);
    assert FEATURES[1] == 'f' && HOOK_TABLE[1] == '[';
    if Dropped(sections, 0) {
      DroppedIsHookSection(sections, 0);
      assert false;
    }
    TrimKeepsFirst(groups[0]);
    assert RemainingLines(Join(lines))[0] == FEATURES;
    TrimKeepsFirst(RemainingLines(Join(lines)));
    FeaturesFound(BareLines(Join(lines)), 0);
  }

  // ----- a second pass over a finished text -----

  lemma {:induction false} SecondPassBare(lines: seq<string>)
    requires Stripped(lines)
    ensures Weight(BareLines(Join(lines))) <= Weight(lines)
    ensures Weight(BareLines(Join(lines))) == Weight(lines) ==> Settled(Join(lines))
    ensures Settled(Join(lines)) ==> BareLines(Join(lines)) == lines
  {
    hide TrimLines, RStrip, RemainingLines, Settled, Weight, Join, TextLines;
    StrippedText(lines);
    StripPreviousLines(Join(lines));
    TrimWeight(RemainingLines(Join(lines)));
  }

  // ----- the added features section -----

  lemma {:induction false} AddedScan(bare: seq<string>)
    requires !HasFeatures(bare)
    ensures var (s, e) := Scan([FEATURES, HOOK_FEATURE, ""] + bare, 0, None);
            && s == Some(0) && 3 <= e
            && (forall k :: 0 <= k < e - 3 ==> !IsHeader(bare[k]))
            && (e - 3 < |bare| ==> IsHeader(bare[e - 3]))
  {
    var lines := [FEATURES, HOOK_FEATURE, ""] + bare;
    FeaturesLine();
    HookLine();
    EmptyIsNothing();
    LineKinds(HOOK_FEATURE);
    hide IsFeatures, IsHeader, IsHooksLine, LStrip, RStrip, Blank, BreakFree, LineWeight;
    ScanFinds(bare, 0, None);
    ScanFinds(lines, 0, None);
    assert forall k :: 3 <= k < |lines| ==> lines[k] == bare[k - 3];
    var (s, e) := Scan(lines, 0, None);
    assert s.value == 0;
    LineKinds(lines[0]);
    assert e != 1 && e != 2;
    assert forall k :: 0 <= k < e - 3 ==> lines[k + 3] == bare[k];
  }

  lemma {:induction false} EmptyIsNothing()
    ensures !IsFeatures("") && !IsHeader("") && !IsHooksLine("")
  {
  }

  lemma {:induction false} HookCountAppend(a: seq<string>, b: seq<string>)
    ensures HookCount(a + b) == HookCount(a) + HookCount(b)
  {
    hide IsHooksLine;
    if a == [] {
      assert a + b == b;
    } else {
      assert (a + b)[1..] == a[1..] + b;
      HookCountAppend(a[1..], b);
    }
  }

  lemma {:induction false} HookCounted(lines: seq<string>, k: nat)
    requires k < |lines| && IsHooksLine(lines[k])
    ensures HookCount(lines) >= 1
  {
    hide IsHooksLine;
    NoHooks(lines);
  }

  lemma {:induction false} AddedQuiet(bare: seq<string>, e: nat)
    requires 3 <= e <= |bare| + 3 && QuietPrefix(bare) && forall k :: 0 <= k < e - 3 ==> !IsHeader(bare[k])
    ensures Normalized(([FEATURES, HOOK_FEATURE, ""] + bare)[..e], false) == ([FEATURES, HOOK_FEATURE, ""] + bare)[..e]
  {
    FeaturesLine();
    LineKinds(FEATURES);
    HookLine();
    EmptyIsNothing();
    hide IsFeatures, IsHeader, IsHooksLine, LStrip, RStrip, Blank, BreakFree, LineWeight, Normalized;
    var lines := ([FEATURES, HOOK_FEATURE, ""] + bare)[..e];
    forall j | 0 <= j < e && j != 1 ensures !IsHooksLine(lines[j]) {
      if j >= 3 {
        assert lines[j] == bare[j - 3];
      } else {
        assert lines[0] == FEATURES && lines[2] == "";
      }
    }
    assert OneHook(lines, 1);
    NormalizedFixed(lines, 1);
  }

  lemma {:induction false} AddedNotQuiet(bare: seq<string>, e: nat, k: nat)
    requires 3 <= e <= |bare| + 3 && k < e - 3 && IsHooksLine(bare[k])
    ensures |Normalized(([FEATURES, HOOK_FEATURE, ""] + bare)[..e], false)| < e
  {
    HookLine();
    hide IsHooksLine, RStrip, Blank, BreakFree, LineWeight, Normalized, HookCount;
    var added, part := [FEATURES, HOOK_FEATURE, ""], bare[..e - 3];
    var lines := (added + bare)[..e];
    assert |added| == 3 && lines == added + part;
    assert added[1] == HOOK_FEATURE && part[k] == bare[k];
    HookCounted(added, 1);
    HookCounted(part, k);
    HookCountAppend(added, part);
    NormalizedLength(lines, false);
  }

  /** With an added features section, the next pass keeps the lines exactly when their prefix is quiet. */
  lemma {:induction false} AddedFixedIff(bare: seq<string>)
    requires !HasFeatures(bare)
    ensures var lines := [FEATURES, HOOK_FEATURE, ""] + bare;
            && HasFeatures(lines)
            && (QuietPrefix(bare) ==> EnsureLines(lines) == lines)
            && (!QuietPrefix(bare) ==> |EnsureLines(lines)| < |lines|)
  {
    hide IsFeatures, IsHeader, IsHooksLine, Normalized;
    var lines := [FEATURES, HOOK_FEATURE, ""] + bare;
    AddedScan(bare);
    LineKindsOf(bare);
    var (s, e) := Scan(lines, 0, None);
    hide Scan;
    assert EnsureLines(lines) == [] + Normalized(lines[..e], false) + lines[e..];
    if QuietPrefix(bare) {
      AddedQuiet(bare, e);
      assert [] + lines[..e] + lines[e..] == lines;
    } else {
      var k :| 0 <= k < |bare| && IsHooksLine(bare[k]) && forall h :: 0 <= h < k ==> !IsHeader(bare[h]);
      AddedNotQuiet(bare, e, k);
    }
  }

  lemma {:induction false} LineKindsOf(lines: seq<string>)
    ensures forall k :: 0 <= k < |lines| ==> !(IsHeader(lines[k]) && IsHooksLine(lines[k]))
    ensures forall k :: 0 <= k < |lines| ==> !(IsFeatures(lines[k]) && IsHooksLine(lines[k]))
  {
    hide IsFeatures, IsHeader, IsHooksLine, Blank, IsHookTable;
    forall k | 0 <= k < |lines|
      ensures !(IsHeader(lines[k]) && IsHooksLine(lines[k])) && !(IsFeatures(lines[k]) && IsHooksLine(lines[k]))
    {
      LineKinds(lines[k]);
    }
  }

  /**
   The finished text always has a features line, and re-enabling keeps it unless lines were added
   above a stray hooks line.
   */
  lemma {:induction false} CoreEnsured(content: string)
    ensures HasFeatures(CoreLines(content))
    ensures var bare := BareLines(content);
            if bare == [] || HasFeatures(bare) || QuietPrefix(bare)
            then EnsureLines(CoreLines(content)) == CoreLines(content)
            else |EnsureLines(CoreLines(content))| < |CoreLines(content)|
  {
    hide EnsureLines, TrimLines, BareLines, Scan, QuietPrefix;
    var bare := BareLines(content);
    if bare == [] {
      JustEnabled();
      EnabledFixed(CoreLines(content));
    } else if HasFeatures(bare) {
      EnsureEnables(bare);
      EnabledFixed(CoreLines(content));
    } else {
      AddedFixedIff(bare);
    }
  }

  lemma {:induction false} JustEnabled()
    ensures Enabled([FEATURES, HOOK_FEATURE])
  {
    FeaturesLine();
    HookLine();
    LineKinds(FEATURES);
    LineKinds(HOOK_FEATURE);
    hide IsFeatures, IsHeader, IsHooksLine, LStrip, RStrip, Blank, BreakFree, LineWeight;
    var lines := [FEATURES, HOOK_FEATURE];
    ScanRun(lines, 1, 0, 2);
    assert lines[0..2] == lines;
    assert OneHook(lines[0..2], 1);
  }

  /** Recomputing the text in front of the block changes nothing exactly when it is final. */
  lemma {:induction false} CoreFixedIff(stripped: string)
    ensures CoreOf(CoreOf(stripped)) == CoreOf(stripped) <==> Final(stripped)
  {
    hide EnsureLines, TrimLines, BareLines, Scan, QuietPrefix, Settled, CoreOf, Join, Weight, TextLines;
    var c, lines := CoreOf(stripped), CoreLines(stripped);
    CoreIs(stripped);
    CoreIs(c);
    CoreStripped(stripped);
    CoreStripped(c);
    StrippedText(lines);
    StrippedText(CoreLines(c));
    CoreEnsured(stripped);
    SecondPassBare(lines);
    var bare := BareLines(c);
    if CoreOf(c) == c {
      assert CoreLines(c) == lines;
      if bare == [] || !HasFeatures(bare) {
        FirstLineSurvives(lines);
      } else {
        EnsureEnables(bare);
        assert Settled(c);
        assert bare == lines;
      }
    }
  }

  // ----- markers come from the text -----

  ghost predicate NoMark(lines: seq<string>, mark: string) {
    forall k :: 0 <= k < |lines| ==> !Contains(lines[k], mark)
  }

  lemma {:induction false} StripNoMark(s: string, mark: string)
    requires !Contains(s, mark)
    ensures !Contains(RStrip(s), mark)
  {
    RStripShape(s);
    if Contains(RStrip(s), mark) {
      ContainsPart(s, 0, |RStrip(s)|, mark);
    }
  }

  lemma {:induction false} LinesNoMark(s: string, mark: string)
    requires !Contains(s, mark)
    ensures NoMark(SplitLines(s), mark)
  {
    hide Contains, SplitLines;
    forall k | 0 <= k < |SplitLines(s)| ensures !Contains(SplitLines(s)[k], mark) {
      if Contains(SplitLines(s)[k], mark) {
        LineContained(s, k, mark);
      }
    }
  }

  lemma {:induction false} JoinNoMark(lines: seq<string>, mark: string)
    requires mark != "" && BreakFree(mark) && NoMark(lines, mark)
    ensures !Contains(Join(lines), mark)
  {
    hide Contains;
    ContainsJoin(lines, mark);
  }

  lemma {:induction false} TrimNoMark(lines: seq<string>, mark: string)
    requires NoMark(lines, mark)
    ensures NoMark(TrimLines(lines), mark)
  {
    hide Contains, RStrip, Blank;
    if lines != [] {
      var init, last := lines[..|lines| - 1], lines[|lines| - 1];
      if Blank(last) {
        TrimNoMark(init, mark);
      } else {
        StripNoMark(last, mark);
      }
    }
  }

  lemma {:induction false} GroupsNoMark(lines: seq<string>, mark: string)
    requires NoMark(lines, mark)
    ensures forall g :: 0 <= g < |Groups(lines)| ==> NoMark(Groups(lines)[g], mark)
  {
    hide Contains, Opens;
    if lines != [] {
      GroupsNoMark(lines[CutAt(lines, 1)..], mark);
    }
  }

  lemma {:induction false} KeptNoMark(sections: seq<string>, groups: seq<seq<string>>, i: nat, mark: string)
    requires |sections| == |groups| && forall g :: 0 <= g < |groups| ==> NoMark(groups[g], mark)
    ensures NoMark(KeptLines(sections, groups, i), mark)
    decreases |groups| - i
  {
    hide Contains, Dropped, Blank, TrimLines;
    if i < |groups| {
      KeptNoMark(sections, groups, i + 1, mark);
      TrimNoMark(groups[i], mark);
    }
  }

  lemma {:induction false} NormalizedNoMark(lines: seq<string>, inserted: bool, mark: string)
    requires NoMark(lines, mark) && !Contains(HOOK_FEATURE, mark)
    ensures NoMark(Normalized(lines, inserted), mark)
  {
    hide Contains, IsHooksLine;
    if lines != [] {
      NormalizedNoMark(lines[1..], inserted || IsHooksLine(lines[0]), mark);
    }
  }

  lemma {:induction false} EnsureNoMark(lines: seq<string>, mark: string)
    requires HasFeatures(lines) && NoMark(lines, mark) && !Contains(HOOK_FEATURE, mark)
    ensures NoMark(EnsureLines(lines), mark)
  {
    hide Contains, Scan, Normalized;
    ScanFinds(lines, 0, None);
    var (s, e) := Scan(lines, 0, None);
    NormalizedNoMark(lines[s.value..e], false, mark);
  }

  /** A marker in the finished text was already in the text. */
  lemma {:induction false} MarkOrigin(content: string, mark: string)
    requires BreakFree(mark) && mark != "" && mark[0] == '#'
    requires !Contains(content, mark)
    ensures !Contains(CoreOf(content), mark)
  {
    AddedNoMark(mark);
    hide Contains, BareLines, TrimLines, EnsureLines, Scan, BreakFree, CoreOf, Join;
    BareNoMark(content, mark);
    var bare := BareLines(content);
    if HasFeatures(bare) {
      EnsureNoMark(bare, mark);
      TrimNoMark(EnsureLines(bare), mark);
    }
    CoreIs(content);
    JoinNoMark(CoreLines(content), mark);
  }

  lemma {:induction false} BareNoMark(content: string, mark: string)
    requires !Contains(content, mark)
    ensures NoMark(BareLines(content), mark)
  {
    hide Contains, RStrip, SplitLines, Groups, KeptLines, TrimLines, NoMark;
    var text := RStrip(content);
    StripNoMark(content, mark);
    LinesNoMark(text, mark);
    GroupsNoMark(SplitLines(text), mark);
    KeptNoMark(Sections(text), Groups(SplitLines(text)), 0, mark);
    TrimNoMark(RemainingLines(text), mark);
  }

  lemma {:induction false} AddedNoMark(mark: string)
    requires mark != "" && mark[0] == '#'
    ensures !Contains(FEATURES, mark) && !Contains(HOOK_FEATURE, mark) && !Contains("", mark)
  {
  }

  lemma {:induction false} AtPrefix(p: string, q: string, sub: string, k: nat)
    requires At(p, sub, k)
    ensures At(p + q, sub, k)
  {
  }

  // ----- the merge -----

  /** A stray start marker left in the text is cut out, with everything after it, by the next pass. */
  lemma {:induction false} StrayStartLost(core: string, body: string, marker: string)
    requires PlainMarker(marker) && !Contains(body, EndMarker(marker)) && !Contains(core, EndMarker(marker))
    requires Contains(core, StartMarker(marker))
    ensures var r := StripBlock(core + "\n\n" + Block(body, marker), marker);
            r.Ok? && !Contains(r.value, StartMarker(marker))
  {
    hide StartMarker, EndMarker, At, IndexFrom, BreakFree, Contains;
    var start, end := StartMarker(marker), EndMarker(marker);
    var s := core + "\n\n" + Block(body, marker);
    var fenced := core + "\n\n" + (start + "\n" + body);
    MarkerFacts(marker);
    BlockEnds(body, marker);
    assert s == fenced + "\n" + (end + "\n");
    assert s == core + ("\n\n" + Block(body, marker));
    hide Block;
    var i := StrayStart(core, "\n\n" + Block(body, marker), start);
    NoEndBefore(core, start, body, end);
    StrayEnd(s, fenced, end + "\n", end, i);
    assert s[|fenced| + 1 + |end|..] == "\n" && s[..i] == core[..i];
    StrayCut(s, core[..i], |fenced| + 1, marker);
  }

  lemma {:induction false} StrayCut(s: string, before: string, e: nat, marker: string)
    requires PlainMarker(marker) && |before| <= |s| && before == s[..|before|] && !Contains(before, StartMarker(marker))
    requires IndexFrom(s, StartMarker(marker), 0) == Some(|before|)
    requires IndexFrom(s, EndMarker(marker), |before|) == Some(e) && s[e + |EndMarker(marker)|..] == "\n"
    ensures StripBlock(s, marker) == Ok(before + "\n") && !Contains(before + "\n", StartMarker(marker))
  {
    var start, end := StartMarker(marker), EndMarker(marker);
    assert start != "";
    hide StartMarker, EndMarker, BreakFree;
    MarkerFacts(marker);
    assert At(s, start, |before|) && At(s, end, e);
    assert Contains(s, start) && Contains(s, end);
    hide At, IndexFrom;
    NothingContains(start);
    ContainsAcross(before, "", start);
    assert before + "\n" + "" == before + "\n";
    assert CutOnce(s, marker) == Shorter(before + "\n");
    assert CutOnce(before + "\n", marker) == Whole;
  }

  /** The first start marker is inside the text, and no start marker lies before it. */
  lemma {:induction false} StrayStart(core: string, rest: string, start: string) returns (i: nat)
    requires start != "" && Contains(core, start)
    ensures IndexFrom(core + rest, start, 0) == Some(i) && i <= |core| && Contains(core + rest, start)
    ensures !Contains(core[..i], start)
  {
    var s := core + rest;
    var j :| 0 <= j <= |core| && At(core, start, j);
    AtPrefix(core, rest, start, j);
    i := IndexFrom(s, start, 0).value;
    assert s == core[..i] + (core[i..] + rest);
    forall k | 0 <= k <= i ensures !At(core[..i], start, k) {
      if At(core[..i], start, k) {
        AtPrefix(core[..i], core[i..] + rest, start, k);
      }
    }
  }

  lemma {:induction false} NoEndBefore(core: string, start: string, body: string, end: string)
    requires end != "" && BreakFree(end)
    requires !Contains(core, end) && !Contains(start, end) && !Contains(body, end)
    ensures !Contains(core + "\n\n" + (start + "\n" + body), end)
  {
    hide Contains, BreakFree;
    NothingContains(end);
    ContainsAcross(core, "", end);
    ContainsAcross(core + "\n" + "", start, end);
    assert (core + "\n" + "") + "\n" + start == core + "\n\n" + start;
    ContainsAcross(core + "\n\n" + start, body, end);
    assert (core + "\n\n" + start) + "\n" + body == core + "\n\n" + (start + "\n" + body);
  }

  lemma {:induction false} StrayEnd(s: string, fenced: string, tail: string, end: string, i: nat)
    requires s == fenced + "\n" + tail && i <= |fenced|
    requires end != "" && BreakFree(end) && !Contains(fenced, end) && At(tail, end, 0)
    ensures IndexFrom(s, end, i) == Some(|fenced| + 1)
  {
    hide BreakFree, At, IndexFrom, Contains;
    assert s == fenced[..i] + (fenced[i..] + "\n" + tail);
    assert fenced[i..] == fenced[i..|fenced|];
    if Contains(fenced[i..], end) {
      ContainsPart(fenced, i, |fenced|, end);
    }
    FirstAcross(s, fenced[..i], fenced[i..], tail, end);
  }

  lemma {:induction false} TrailingNewlines(core: string)
    ensures CoreOf(core + "\n\n\n") == CoreOf(core)
  {
    NewlineThen("");
    NewlineThen("\n");
    NewlineThen("\n\n");
    assert "\n" + "\n\n" == "\n\n\n" && "\n" + "\n" == "\n\n" && "\n" + "" == "\n";
    hide Blank, RStrip, StripPrevious, EnsureHooksFeature;
    RStripAppend(core, "\n\n\n");
  }

  lemma {:induction false} SameFront(a: string, b: string, block: string)
    ensures a + "\n\n" + block == b + "\n\n" + block <==> a == b
  {
    if a + "\n\n" + block == b + "\n\n" + block {
      assert |a| == |b|;
      assert (a + "\n\n" + block)[..|a|] == a && (b + "\n\n" + block)[..|b|] == b;
    }
  }

  /**
   Merging again changes nothing exactly when no stray start marker is left in front of the
   block and the text in front of the block is final.
   */
  lemma {:induction false} MergeIdempotentIff(existing: string, body: string, marker: string)
    requires PlainMarker(marker) && !Contains(body, EndMarker(marker))
    requires Merge(existing, Block(body, marker), marker).Ok?
    ensures var stripped := StripBlock(existing, marker).value;
            var merged := Merge(existing, Block(body, marker), marker).value;
            Merge(merged, Block(body, marker), marker) == Ok(merged)
            <==> !Contains(CoreOf(stripped), StartMarker(marker)) && Final(stripped)
  {
    hide StartMarker, EndMarker, Block, Contains, CoreOf, Final, StripBlock, BreakFree;
    var stripped := StripBlock(existing, marker).value;
    if Contains(CoreOf(stripped), StartMarker(marker)) {
      StrayChanges(existing, body, marker);
    } else {
      var core := CoreOf(stripped);
      BlockCutsOut(core, body, marker);
      TrailingNewlines(core);
      CoreFixedIff(stripped);
      SameFront(CoreOf(core), core, Block(body, marker));
    }
  }

  lemma {:induction false} StrayChanges(existing: string, body: string, marker: string)
    requires PlainMarker(marker) && !Contains(body, EndMarker(marker)) && StripBlock(existing, marker).Ok?
    requires Contains(CoreOf(StripBlock(existing, marker).value), StartMarker(marker))
    ensures var merged := CoreOf(StripBlock(existing, marker).value) + "\n\n" + Block(body, marker);
            Merge(merged, Block(body, marker), marker) != Ok(merged)
  {
    MarkerFacts(marker);
    assert StartMarker(marker)[0] == '#' && EndMarker(marker)[0] == '#';
    hide StartMarker, EndMarker, Block, Contains, CoreOf, StripBlock, BreakFree, IsBreak;
    var stripped := StripBlock(existing, marker).value;
    var core := CoreOf(stripped);
    BothMarkersCut(existing, marker);
    if !Contains(stripped, StartMarker(marker)) {
      MarkOrigin(stripped, StartMarker(marker));
    }
    MarkOrigin(stripped, EndMarker(marker));
    StrayStartLost(core, body, marker);
    var rest := StripBlock(core + "\n\n" + Block(body, marker), marker).value;
    MarkOrigin(rest, StartMarker(marker));
    SameFront(CoreOf(rest), core, Block(body, marker));
  }

  lemma {:induction false} BothMarkersCut(existing: string, marker: string)
    requires StripBlock(existing, marker).Ok?
    ensures var r := StripBlock(existing, marker).value;
            !(Contains(r, StartMarker(marker)) && Contains(r, EndMarker(marker)))
  {
  }
}
