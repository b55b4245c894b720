/**
 Idempotence of the merge in terms of the lines that are left of the existing text: with a
 features section, without one, and for every text.
 */
module CodexIdempotence {
  import opened Wrappers
  import opened Text
  import opened CodexConfig
  import opened CodexLines
  import opened CodexSections
  import opened CodexFeatures
  import opened CodexMerge
  import opened CodexStability
  import opened CodexSettling
  import opened CodexExposed

  // ----- the lines the conditions speak of -----

  /** The lines left are those of the text's sections that are not dropped, each with its end stripped. */
  lemma {:induction false} BareAreKept(stripped: string)
    ensures var text := RStrip(stripped);
            BareLines(stripped) == KeptLines(Sections(text), Groups(SplitLines(text)), 0)
  {
    hide RStrip, Groups, SplitLines, TrimLines, KeptLines;
    var text := RStrip(stripped);
    KeptEnd(Sections(text), Groups(SplitLines(text)), 0);
  }

  /** The lines of the sections from `i` on that are not dropped, each section with its end stripped. */
  function LinesLeft(sections: seq<string>, i: nat): seq<string>
    decreases |sections| - i
  {
    if i >= |sections| then []
    else (if Dropped(sections, i) then [] else SplitLines(RStrip(sections[i]))) + LinesLeft(sections, i + 1)
  }

  lemma {:induction false} SectionLinesLeft(section: string, group: seq<string>)
    requires section == Join(group) && forall k :: 0 <= k < |group| ==> BreakFree(group[k])
    ensures SplitLines(RStrip(section)) == if Blank(section) then [] else TrimLines(group)
  {
    hide Blank, RStrip, BreakFree, TrimLines, Join;
    RStripBlank(section);
    if Blank(section) {
      assert SplitLines("") == [];
    } else {
      KeptOne(group);
      SplitJoin(TrimLines(group));
    }
  }

  lemma {:induction false} KeptAreLeft(sections: seq<string>, groups: seq<seq<string>>, i: nat)
    requires sections == JoinAll(groups)
    requires forall g, k :: 0 <= g < |groups| && 0 <= k < |groups[g]| ==> BreakFree(groups[g][k])
    ensures KeptLines(sections, groups, i) == LinesLeft(sections, i)
    decreases |sections| - i
  {
    hide Dropped, Blank, RStrip, TrimLines, BreakFree, Join, SplitLines;
    if i < |sections| {
      SectionLinesLeft(sections[i], groups[i]);
      KeptAreLeft(sections, groups, i + 1);
    }
  }

  /** The lines the conditions speak of can be read off the sections of the existing text. */
  lemma {:induction false} BareAreLeft(stripped: string)
    ensures BareLines(stripped) == LinesLeft(Sections(RStrip(stripped)), 0)
  {
    hide RStrip, Groups, SplitLines, BareLines, KeptLines, LinesLeft, BreakFree;
    var text := RStrip(stripped);
    BareAreKept(stripped);
    GroupsBreakFree(SplitLines(text));
    KeptAreLeft(Sections(text), Groups(SplitLines(text)), 0);
  }

  // ----- with a features section -----

  /**
   The promise of the status check: for a text with a features section and no stray start marker,
   merging again changes nothing, unless dropping the old hook sections left a Stop header behind
   or removing hooks lines exposed the open end of a section. This is exact.
   */
  lemma {:induction false} MergeIdempotentWithFeatures(existing: string, body: string, marker: string)
    requires PlainMarker(marker) && !Contains(body, EndMarker(marker))
    requires Merge(existing, Block(body, marker), marker).Ok?
    requires var stripped := StripBlock(existing, marker).value;
             HasFeatures(BareLines(stripped)) && !Contains(stripped, StartMarker(marker))
    ensures var merged := Merge(existing, Block(body, marker), marker).value;
            var stripped := StripBlock(existing, marker).value;
            Merge(merged, Block(body, marker), marker) == Ok(merged)
            <==> !StopLeft(Sections(RStrip(stripped))) && !Exposed(BareLines(stripped))
  {
    MarkerFacts(marker);
    assert StartMarker(marker) != "" && StartMarker(marker)[0] == '#';
    hide Scan, Settled, Sections, StopLeft, CoreOf, RStrip, BareLines, Contains, StripBlock, BreakFree, StartMarker;
    hide EndMarker, Block, QuietPrefix, HasFeatures, Exposed;
    var stripped := StripBlock(existing, marker).value;
    MergeIdempotentIff(existing, body, marker);
    MarkOrigin(stripped, StartMarker(marker));
    CoreSettledIff(stripped);
  }

  // ----- a features line of the existing text -----

  lemma {:induction false} OpeningGroup(lines: seq<string>, k: nat) returns (g: nat)
    requires k < |lines| && Opens(lines[k])
    ensures g < |Groups(lines)| && Groups(lines)[g] != [] && Groups(lines)[g][0] == lines[k]
    decreases |lines|
  {
    hide Opens;
    if k == 0 {
      g := 0;
    } else {
      var n := CutAt(lines, 1);
      assert k >= n;
      var h := OpeningGroup(lines[n..], k - n);
      g := h + 1;
    }
  }

  lemma {:induction false} KeptMember(sections: seq<string>, groups: seq<seq<string>>, i: nat, g: nat, line: string)
    requires |sections| == |groups| && i <= g < |groups|
    requires !Dropped(sections, g) && !Blank(sections[g]) && line in TrimLines(groups[g])
    ensures line in KeptLines(sections, groups, i)
    decreases |groups| - i
  {
    hide Dropped, Blank, TrimLines;
    if i < g {
      KeptMember(sections, groups, i + 1, g, line);
    }
  }

  /** A features header in column 0 of the existing text is still there after the drop stage. */
  lemma {:induction false} FeaturesKept(stripped: string, k: nat)
    requires k < |SplitLines(RStrip(stripped))|
    requires Opens(SplitLines(RStrip(stripped))[k]) && IsFeatures(SplitLines(RStrip(stripped))[k])
    ensures HasFeatures(BareLines(stripped))
  {
    hide RStrip, LStrip, TrimLines, Opens, Groups, Blank, BreakFree, Dropped, FirstLine, KeptLines, Join;
    hide IsSpace, Scan, IsHeader, IsHooksLine, IsHookTable;
    var text := RStrip(stripped);
    var lines, groups, sections := SplitLines(text), Groups(SplitLines(text)), Sections(text);
    hide SplitLines;
    GroupsBreakFree(lines);
    var g := OpeningGroup(lines, k);
    var group := groups[g];
    LineKinds(lines[k]);
    FirstLineOf(group);
    NotHookSection(lines[k]);
    assert sections[g] == Join(group);
    if Dropped(sections, g) {
      DroppedIsHookSection(sections, g);
    }
    FirstTrimmed(group);
    var line := TrimLines(group)[0];
    KeptMember(sections, groups, 0, g, line);
    KeptEnd(sections, groups, 0);
    var bare := BareLines(stripped);
    assert bare == KeptLines(sections, groups, 0);
    var j :| 0 <= j < |bare| && bare[j] == line;
    FeaturesFound(bare, j);
  }

  lemma {:induction false} NotHookSection(line: string)
    requires IsFeatures(line)
    ensures !(HOOK_TABLE <= LStrip(line))
  {
    RStripShape(LStrip(line));
    hide RStrip, LStrip;
    assert FEATURES[1] == 'f' && HOOK_TABLE[1] == '[';
  }

  lemma {:induction false} FirstTrimmed(group: seq<string>)
    requires group != [] && IsFeatures(group[0])
    ensures TrimLines(group) != [] && IsFeatures(TrimLines(group)[0])
  {
    LineKinds(group[0]);
    TrimShape(group);
    hide TrimLines, Blank, IsFeatures, RStrip, IsHeader, IsHooksLine;
    assert TrimLines(group) != [];
    TrimmedAt(group, 0);
  }

  // ----- without a features section -----

  lemma {:induction false} NotOpening(line: string)
    requires line == "" || line[0] != '['
    ensures !Opens(line)
  {
  }

  lemma {:induction false} AddedHeader()
    ensures BreakFree("") && Blank("") && forall k :: 0 < k < 3 ==> !Opens([FEATURES, HOOK_FEATURE, ""][k])
    ensures Join([FEATURES, HOOK_FEATURE, ""]) == FEATURES + "\n" + (HOOK_FEATURE + "\n" + "")
  {
    var added := [FEATURES, HOOK_FEATURE, ""];
    assert added[1] == HOOK_FEATURE && HOOK_FEATURE[0] == 'h' && added[2] == "";
    NotOpening(added[1]);
    NotOpening(added[2]);
    assert added[1..] == [HOOK_FEATURE, ""] && [HOOK_FEATURE, ""][1..] == [""];
    assert Join([HOOK_FEATURE, ""]) == HOOK_FEATURE + "\n" + "";
  }

  /** Lines that open with a section get a features section that ends in an empty line. */
  lemma {:induction false} AddedAbove(bare: seq<string>)
    requires bare != [] && Opens(bare[0])
    ensures !AllSettled(LineSections([FEATURES, HOOK_FEATURE, ""] + bare))
  {
    AddedHeader();
    hide Opens, Groups, Dropped, Blank, RStrip;
    var added := [FEATURES, HOOK_FEATURE, ""];
    GroupsCut(added, bare);
    var sections := LineSections(added + bare);
    assert sections[0] == Join(added);
    var text := Join(added);
    assert text[|text| - 1] == '\n';
    NotStripped(text);
    assert !SettledAt(sections, 0);
  }

  lemma {:induction false} NotStripped(text: string)
    requires text != "" && text[|text| - 1] == '\n'
    ensures RStrip(text) != text
  {
  }

  /** Otherwise they follow in the same section, which is never dropped. */
  lemma {:induction false} AddedWithin(bare: seq<string>)
    requires bare != [] && !Opens(bare[0]) && Stripped([FEATURES, HOOK_FEATURE, ""] + bare)
    requires Quiet(LineSections(bare)) && forall k :: 0 <= k < |bare| ==> BreakFree(bare[k])
    ensures var a := LineSections(bare);
            a != [] && (AllSettled(LineSections([FEATURES, HOOK_FEATURE, ""] + bare)) <==> !DroppedAny(a[1..]))
  {
    AddedHeader();
    AddedLines();
    hide Opens, Blank, RStrip, LStrip, BreakFree, Join, FirstLine, IsManagedSection, Dropped, Groups;
    hide TrimLines, IsFeatures, LineWeight;
    hide FEATURES, HOOK_FEATURE;
    var added, n := [FEATURES, HOOK_FEATURE, ""], CutAt(bare, 1);
    assert bare == bare[..n] + bare[n..] && added + bare == (added + bare[..n]) + bare[n..];
    GroupsCut(bare[..n], bare[n..]);
    GroupsCut(added + bare[..n], bare[n..]);
    var a, b, rest := LineSections(bare), LineSections(added + bare), JoinAll(Groups(bare[n..]));
    JoinAllCons(bare[..n], Groups(bare[n..]));
    JoinAllCons(added + bare[..n], Groups(bare[n..]));
    assert a[1..] == rest && b[1..] == rest;
    FeaturesSection(added + bare[..n], bare, n);
    FirstNotDropped(b);
    RestDropped(a[0], b[0], rest);
    forall i | 0 <= i < |b| ensures SettledAt(b, i) <==> !Dropped(b, i) {
      if i > 0 {
        assert b[i] == a[i];
      }
    }
  }

  lemma {:induction false} FeaturesSection(group: seq<string>, bare: seq<string>, n: nat)
    requires 0 < n <= |bare| && group == [FEATURES, HOOK_FEATURE, ""] + bare[..n]
    requires forall k :: 0 <= k < |bare| ==> BreakFree(bare[k])
    requires RStrip(Join(bare[..n])) == Join(bare[..n]) && !Blank(Join(bare[..n]))
    ensures FirstLine(Join(group)) == FEATURES && !Blank(Join(group)) && RStrip(Join(group)) == Join(group)
  {
    AddedHeader();
    AddedLines();
    hide Opens, Blank, RStrip, LStrip, BreakFree, Join, FirstLine, IsFeatures, LineWeight;
    assert group[0] == FEATURES && group[1] == HOOK_FEATURE && group[2] == "";
    assert forall k :: 3 <= k < |group| ==> group[k] == bare[k - 3];
    FirstLineOf(group);
    SettledGroup(bare[..n]);
    TrimEnd([FEATURES, HOOK_FEATURE, ""], bare[..n]);
    TrimJoin(group);
  }

  lemma {:induction false} FirstNotDropped(sections: seq<string>)
    requires sections != [] && FirstLine(sections[0]) == FEATURES
    ensures !Dropped(sections, 0)
  {
  }

  lemma {:induction false} RestDropped(a: string, b: string, rest: seq<string>)
    ensures DroppedAny(rest) <==> exists i :: 0 < i < |[b] + rest| && Dropped([b] + rest, i)
  {
    hide Dropped;
    forall j | 0 <= j < |rest| ensures Dropped([b] + rest, j + 1) <==> Dropped(rest, j) {
      DroppedLater(b, rest, j);
    }
    if i :| 0 < i < |[b] + rest| && Dropped([b] + rest, i) {
      assert Dropped(rest, i - 1);
    }
  }

  /** A text that starts outside of any section keeps its first section. */
  lemma {:induction false} PreambleKept(stripped: string)
    requires BareLines(stripped) != [] && !Opens(BareLines(stripped)[0])
    ensures var sections := Sections(RStrip(stripped));
            sections != [] && KeptFrom(sections, 0) == [RStrip(sections[0])] + KeptFrom(sections, 1)
  {
    hide RStrip, Groups, Opens, Blank, BreakFree, Dropped, SplitLines, TrimLines;
    var text := RStrip(stripped);
    var groups, sections := Groups(SplitLines(text)), Sections(text);
    GroupedLines(SplitLines(text));
    KeptEnd(sections, groups, 0);
    assert BareLines(stripped) == KeptLines(sections, groups, 0);
    GroupsOfKept(sections, groups, 1);
    assert [] + KeptLines(sections, groups, 1) == KeptLines(sections, groups, 1);
  }

  /** A Stop header is left behind in some section but the first. */
  predicate StopLeftLater(sections: seq<string>) {
    exists i :: 1 <= i < |sections| && StopLeftAt(sections, i)
  }

  /** With an added features section, when the finished text is settled. */
  lemma {:induction false} AddedSettledIff(stripped: string)
    requires BareLines(stripped) != [] && !HasFeatures(BareLines(stripped))
    ensures Settled(CoreOf(stripped)) <==> !Opens(BareLines(stripped)[0]) && !StopLeftLater(Sections(RStrip(stripped)))
  {
    hide Scan, TrimLines, RStrip, Settled, AllSettled, KeptFrom, StopLeftAt, CoreOf, Join, Groups, LineSections;
    hide Blank, BreakFree, Opens, StripPrevious, IsManagedSection, Dropped, FirstLine, BareLines, DroppedAny;
    hide SplitLines;
    var bare := BareLines(stripped);
    BareSections(stripped);
    BareIs(stripped);
    CoreIs(stripped);
    CoreStripped(stripped);
    SettledLines(CoreLines(stripped));
    if Opens(bare[0]) {
      AddedAbove(bare);
    } else {
      AddedWithin(bare);
      PreambleKept(stripped);
      DroppedAgain(Sections(RStrip(stripped)), 1);
    }
  }

  /**
   Without a features section the merge adds one on top, and merging again changes nothing exactly
   when the rest does not start with a section of its own, sets no hooks key before its first
   header, and keeps no Stop header behind.
   */
  lemma {:induction false} MergeIdempotentWithoutFeatures(existing: string, body: string, marker: string)
    requires PlainMarker(marker) && !Contains(body, EndMarker(marker))
    requires Merge(existing, Block(body, marker), marker).Ok?
    requires var stripped := StripBlock(existing, marker).value;
             BareLines(stripped) != [] && !HasFeatures(BareLines(stripped)) && !Contains(stripped, StartMarker(marker))
    ensures var merged := Merge(existing, Block(body, marker), marker).value;
            var stripped := StripBlock(existing, marker).value;
            var bare := BareLines(stripped);
            Merge(merged, Block(body, marker), marker) == Ok(merged)
            <==> !Opens(bare[0]) && QuietPrefix(bare) && !StopLeftLater(Sections(RStrip(stripped)))
  {
    MarkerFacts(marker);
    assert StartMarker(marker) != "" && StartMarker(marker)[0] == '#';
    hide Scan, Settled, Sections, StopLeftLater, CoreOf, RStrip, BareLines, Contains, StripBlock, BreakFree;
    hide StartMarker, EndMarker, Block, QuietPrefix, Opens;
    var stripped := StripBlock(existing, marker).value;
    MergeIdempotentIff(existing, body, marker);
    MarkOrigin(stripped, StartMarker(marker));
    AddedSettledIff(stripped);
  }

  /** Nothing but a features section is left: one pass settles it. */
  lemma {:induction false} MergeIdempotentWhenEmpty(existing: string, body: string, marker: string)
    requires PlainMarker(marker) && !Contains(body, EndMarker(marker))
    requires Merge(existing, Block(body, marker), marker).Ok?
    requires var stripped := StripBlock(existing, marker).value;
             BareLines(stripped) == [] && !Contains(stripped, StartMarker(marker))
    ensures var merged := Merge(existing, Block(body, marker), marker).value;
            Merge(merged, Block(body, marker), marker) == Ok(merged)
  {
    MarkerFacts(marker);
    assert StartMarker(marker) != "" && StartMarker(marker)[0] == '#';
    hide Settled, CoreOf, BareLines, Contains, StripBlock, BreakFree, StartMarker, EndMarker, Block, QuietPrefix;
    var stripped := StripBlock(existing, marker).value;
    MergeIdempotentIff(existing, body, marker);
    MarkOrigin(stripped, StartMarker(marker));
    AloneSettled(stripped);
  }

  lemma {:induction false} AloneSection()
    ensures Groups([FEATURES, HOOK_FEATURE]) == [[FEATURES, HOOK_FEATURE]]
    ensures FirstLine(Join([FEATURES, HOOK_FEATURE])) == FEATURES
  {
    AddedLines();
    HookOpensNothing();
    hide BreakFree, Blank, RStrip, LStrip, IsFeatures, LineWeight, FirstLine, Opens;
    var lines := [FEATURES, HOOK_FEATURE];
    assert lines + [] == lines && lines[1] == HOOK_FEATURE;
    GroupsCut(lines, []);
    FirstLineOf(lines);
  }

  lemma {:induction false} OneSection(lines: seq<string>)
    requires Stripped(lines) && lines != [] && Groups(lines) == [lines] && FirstLine(Join(lines)) == FEATURES
    ensures AllSettled(LineSections(lines))
  {
    hide FirstLine, Join, Stripped, Groups, Dropped, RStrip, Blank, SplitLines, FEATURES, Clean;
    StrippedText(lines);
    var sections := LineSections(lines);
    assert |sections| == 1 && sections[0] == Join(lines);
    FirstNotDropped(sections);
  }

  lemma {:induction false} AloneSettled(stripped: string)
    requires BareLines(stripped) == []
    ensures Settled(CoreOf(stripped))
  {
    var lines := CoreLines(stripped);
    assert lines == [FEATURES, HOOK_FEATURE];
    CoreIs(stripped);
    CoreStripped(stripped);
    AloneSection();
    hide CoreOf, CoreLines, BareLines, Settled, Groups, Stripped, RStrip, Join, TrimLines, SettledAt, FirstLine;
    hide FEATURES, HOOK_FEATURE;
    SettledLines(lines);
    OneSection(lines);
  }

  // ----- stray start markers -----

  /** Line `k` sets a hooks key in the features section; the merge replaces it or removes it. */
  predicate Rewritten(lines: seq<string>, k: nat)
    requires k < |lines|
  {
    var (start, end) := Scan(lines, 0, None);
    start.Some? && start.value <= k < end && IsHooksLine(lines[k])
  }

  /** A line that the merge does not rewrite holds the mark. */
  ghost predicate StrayMark(lines: seq<string>, mark: string) {
    exists k :: 0 <= k < |lines| && Contains(lines[k], mark) && !Rewritten(lines, k)
  }

  lemma {:induction false} NoMarkAppend(a: seq<string>, b: seq<string>, mark: string)
    ensures NoMark(a + b, mark) <==> NoMark(a, mark) && NoMark(b, mark)
  {
    hide Contains;
    var all := a + b;
    if NoMark(all, mark) {
      forall k | 0 <= k < |a| ensures !Contains(a[k], mark) {
        assert all[k] == a[k];
      }
      forall k | 0 <= k < |b| ensures !Contains(b[k], mark) {
        assert all[|a| + k] == b[k];
      }
    }
  }

  lemma {:induction false} NoMarkOne(line: string, mark: string)
    ensures NoMark([line], mark) <==> !Contains(line, mark)
  {
    hide Contains;
    assert [line][0] == line;
  }

  /** No line but a hooks line holds the mark. */
  ghost predicate NoMarkBut(lines: seq<string>, mark: string) {
    forall k :: 0 <= k < |lines| && !IsHooksLine(lines[k]) ==> !Contains(lines[k], mark)
  }

  lemma {:induction false} NoMarkButCons(line: string, rest: seq<string>, mark: string)
    ensures NoMarkBut([line] + rest, mark) <==> (IsHooksLine(line) || !Contains(line, mark)) && NoMarkBut(rest, mark)
  {
    hide Contains, IsHooksLine;
    var all := [line] + rest;
    assert all[0] == line;
    if NoMarkBut(all, mark) {
      forall k | 0 <= k < |rest| && !IsHooksLine(rest[k]) ensures !Contains(rest[k], mark) {
        assert all[k + 1] == rest[k];
      }
    }
  }

  lemma {:induction false} NormalizedMark(lines: seq<string>, inserted: bool, mark: string)
    requires !Contains(HOOK_FEATURE, mark)
    ensures NoMark(Normalized(lines, inserted), mark) <==> NoMarkBut(lines, mark)
  {
    hide Contains, IsHooksLine, NoMark, NoMarkBut, HOOK_FEATURE;
    NoMarkOne(HOOK_FEATURE, mark);
    NoMarkNone(mark);
    if lines != [] {
      var line, rest := lines[0], lines[1..];
      var after := Normalized(rest, inserted || IsHooksLine(line));
      assert lines == [line] + rest;
      NormalizedMark(rest, inserted || IsHooksLine(line), mark);
      NoMarkButCons(line, rest, mark);
      NoMarkOne(line, mark);
      NoMarkAppend([line], after, mark);
      NoMarkAppend([HOOK_FEATURE], after, mark);
      assert [] + after == after;
    }
  }

  lemma {:induction false} NoMarkNone(mark: string)
    ensures NoMark([], mark) && NoMarkBut([], mark)
  {
  }

  lemma {:induction false} StrayIff(front: seq<string>, region: seq<string>, rest: seq<string>, mark: string)
    requires front != [] && !IsHooksLine(front[|front| - 1])
    requires var (start, end) := Scan(front + region + rest, 0, None);
             start.Some? && start.value == |front| - 1 && end == |front| + |region|
    ensures !StrayMark(front + region + rest, mark)
      <==> NoMark(front, mark) && NoMarkBut(region, mark) && NoMark(rest, mark)
  {
    hide Contains, IsHooksLine, Scan;
    var all := front + region + rest;
    if !StrayMark(all, mark) {
      forall k | 0 <= k < |front| ensures !Contains(front[k], mark) {
        assert all[k] == front[k] && !Rewritten(all, k);
      }
      forall k | 0 <= k < |region| && !IsHooksLine(region[k]) ensures !Contains(region[k], mark) {
        assert all[|front| + k] == region[k] && !Rewritten(all, |front| + k);
      }
      forall k | 0 <= k < |rest| ensures !Contains(rest[k], mark) {
        assert all[|front| + |region| + k] == rest[k] && !Rewritten(all, |front| + |region| + k);
      }
    } else {
      var k :| 0 <= k < |all| && Contains(all[k], mark) && !Rewritten(all, k);
      if k < |front| {
        assert all[k] == front[k];
      } else if k < |front| + |region| {
        assert all[k] == region[k - |front|];
      } else {
        assert all[k] == rest[k - |front| - |region|];
      }
    }
  }

  lemma {:induction false} EnsureMark(bare: seq<string>, mark: string)
    requires HasFeatures(bare) && !Contains(HOOK_FEATURE, mark)
    ensures NoMark(EnsureLines(bare), mark) <==> !StrayMark(bare, mark)
  {
    hide *;
    var front, region, rest := EnsureParts(bare);
    LineKinds(front[|front| - 1]);
    StrayIff(front, region, rest, mark);
    NormalizedMark(region, false, mark);
    NoMarkAppend(front + Normalized(region, false), rest, mark);
    NoMarkAppend(front, Normalized(region, false), mark);
  }

  lemma {:induction false} JoinMark(lines: seq<string>, mark: string)
    requires mark != "" && BreakFree(mark)
    ensures Contains(Join(lines), mark) <==> !NoMark(lines, mark)
  {
    hide Contains;
    ContainsJoin(lines, mark);
  }

  lemma {:induction false} AddedMark(bare: seq<string>, mark: string)
    requires mark != "" && mark[0] == '#' && !HasFeatures(bare)
    ensures NoMark([FEATURES, HOOK_FEATURE, ""] + bare, mark) <==> !StrayMark(bare, mark)
    ensures NoMark([FEATURES, HOOK_FEATURE], mark)
  {
    AddedNoMark(mark);
    hide Contains, Scan;
    NoMarkAppend([FEATURES, HOOK_FEATURE, ""], bare, mark);
    assert forall k :: 0 <= k < |bare| ==> !Rewritten(bare, k);
  }

  /** A start marker is in the finished text exactly when a line that is not rewritten holds it. */
  lemma {:induction false} CoreMarkIff(content: string, mark: string)
    requires mark != "" && mark[0] == '#' && PlainEnd(mark) && BreakFree(mark)
    ensures Contains(CoreOf(content), mark) <==> StrayMark(BareLines(content), mark)
  {
    AddedNoMark(mark);
    hide Contains, BareLines, TrimLines, EnsureLines, BreakFree, CoreOf, Join, NoMark, StrayMark, HasFeatures, RStrip;
    hide PlainEnd;
    var bare := BareLines(content);
    CoreIs(content);
    JoinMark(CoreLines(content), mark);
    if bare == [] {
      NoLinesNoMark(mark);
      AddedMark([], mark);
    } else if HasFeatures(bare) {
      TrimJoin(EnsureLines(bare));
      PlainContains(Join(EnsureLines(bare)), mark);
      JoinMark(EnsureLines(bare), mark);
      EnsureMark(bare, mark);
    } else {
      AddedMark(bare, mark);
    }
  }

  lemma {:induction false} NoLinesNoMark(mark: string)
    ensures !StrayMark([], mark) && !HasFeatures([])
  {
  }

  // ----- every text -----

  /** Sections of a text that need no second pass. */
  ghost predicate Lasting(sections: seq<string>) {
    var left := LinesLeft(sections, 0);
    || left == []
    || (if HasFeatures(left) then !StopLeft(sections) && !Exposed(left)
        else !Opens(left[0]) && QuietPrefix(left) && !StopLeftLater(sections))
  }

  lemma {:induction false} FinalIff(stripped: string)
    ensures Final(stripped) <==> Lasting(Sections(RStrip(stripped)))
  {
    hide Settled, CoreOf, BareLines, HasFeatures, StopLeft, StopLeftLater, QuietPrefix, Exposed, Opens;
    hide Sections, RStrip, LinesLeft;
    BareAreLeft(stripped);
    var bare := BareLines(stripped);
    if bare == [] {
      AloneSettled(stripped);
    } else if HasFeatures(bare) {
      CoreSettledIff(stripped);
    } else {
      AddedSettledIff(stripped);
    }
  }

  lemma {:induction false} StartMarkerShape(marker: string)
    ensures StartMarker(marker) != "" && StartMarker(marker)[0] == '#' && PlainEnd(StartMarker(marker))
  {
    var start := StartMarker(marker);
    assert start[|start| - 1] == '>';
  }

  /**
   For every text, in terms of the sections it has before the merge: merging again changes nothing
   exactly when the sections are lasting and no line left of them holds a start marker, but for the
   hooks lines that the merge rewrites.
   */
  lemma {:induction false} MergeIdempotentOnSections(existing: string, body: string, marker: string)
    requires PlainMarker(marker) && !Contains(body, EndMarker(marker))
    requires Merge(existing, Block(body, marker), marker).Ok?
    ensures var sections := Sections(RStrip(StripBlock(existing, marker).value));
            var merged := Merge(existing, Block(body, marker), marker).value;
            Merge(merged, Block(body, marker), marker) == Ok(merged)
            <==> Lasting(sections) && !StrayMark(LinesLeft(sections, 0), StartMarker(marker))
  {
    MarkerFacts(marker);
    StartMarkerShape(marker);
    hide StartMarker, EndMarker, Block, Contains, CoreOf, Final, Lasting, StripBlock, BreakFree, BareLines, StrayMark;
    hide PlainEnd, LinesLeft, Sections, RStrip;
    var stripped := StripBlock(existing, marker).value;
    MergeIdempotentIff(existing, body, marker);
    CoreMarkIff(stripped, StartMarker(marker));
    FinalIff(stripped);
    BareAreLeft(stripped);
  }
}
