/**
 How the stages of the Codex merge act on lines: trimming, grouping, dropping and enabling
 the hooks feature, with the weight that every effective drop or trim lowers.
 */
module CodexLines {
  import opened Wrappers
  import opened Text
  import opened CodexConfig

  // ----- trimming the end of a section -----

  /** The lines of a section after stripping its end. */
  function TrimLines(lines: seq<string>): (r: seq<string>)
    ensures |r| <= |lines|
  {
    if lines == [] then []
    else
      var init, last := lines[..|lines| - 1], lines[|lines| - 1];
      if Blank(last) then TrimLines(init) else init + [RStrip(last)]
  }

  /** Trimming drops trailing blank lines and strips the end of the last line left. */
  lemma {:induction false} TrimShape(lines: seq<string>)
    ensures var r := TrimLines(lines);
            && (forall i :: |r| <= i < |lines| ==> Blank(lines[i]))
            && (forall i :: 0 <= i < |r| - 1 ==> r[i] == lines[i])
            && (r != [] ==> r[|r| - 1] == RStrip(lines[|r| - 1]) && !Blank(lines[|r| - 1]) && !Blank(r[|r| - 1]))
  {
    hide RStrip, Blank;
    if lines != [] {
      var init, last := lines[..|lines| - 1], lines[|lines| - 1];
      if Blank(last) {
        TrimShape(init);
      } else {
        RStripTwice(last);
      }
    }
  }

  lemma {:induction false} NewlineThen(line: string)
    requires Blank(line)
    ensures Blank("\n" + line)
  {
  }

  lemma {:induction false} TrimJoin(lines: seq<string>)
    ensures Join(TrimLines(lines)) == RStrip(Join(lines))
  {
    hide IsSpace, IsBreak, RStrip, Blank;
    if lines != [] {
      var init, last := lines[..|lines| - 1], lines[|lines| - 1];
      assert lines == init + [last];
      if init != [] {
        JoinAppend(init, [last]);
        JoinAppend(init, [RStrip(last)]);
      }
      if Blank(last) {
        TrimJoin(init);
        RStripBlank(last);
        NewlineThen(last);
        RStripAppend(Join(init), "\n" + last);
        assert Join(init) + "\n" + last == Join(init) + ("\n" + last);
      } else {
        RStripAppend(Join(init) + "\n", last);
      }
    }
  }

  lemma {:induction false} TrimFixed(lines: seq<string>)
    requires lines != [] && !IsSpaceEnd(lines[|lines| - 1])
    ensures TrimLines(lines) == lines
  {
    hide IsSpace;
    var last := lines[|lines| - 1];
    RStripUnique(last, last);
    assert !Blank(last);
    assert lines[..|lines| - 1] + [last] == lines;
  }

  /** Empty, or ending in whitespace. */
  predicate IsSpaceEnd(line: string) {
    line == "" || IsSpace(line[|line| - 1])
  }

  // ----- the weight of a text -----

  const HOOK_TABLE := "[[hooks"

  predicate IsHookTable(line: string) {
    HOOK_TABLE <= LStrip(line)
  }

  /** One for a hook table header, one for a blank line, and the trailing whitespace. */
  function LineWeight(line: string): nat {
    (if IsHookTable(line) then 1 else 0) + (|line| - |RStrip(line)|) + (if Blank(line) then 1 else 0)
  }

  function Weight(lines: seq<string>): nat {
    if lines == [] then 0 else LineWeight(lines[0]) + Weight(lines[1..])
  }

  lemma {:induction false} WeightAppend(a: seq<string>, b: seq<string>)
    ensures Weight(a + b) == Weight(a) + Weight(b)
  {
    if a == [] {
      assert a + b == b;
    } else {
      assert (a + b)[1..] == a[1..] + b;
      WeightAppend(a[1..], b);
    }
  }

  lemma {:induction false} HookTableStripped(line: string)
    requires !Blank(line) && IsHookTable(RStrip(line))
    ensures IsHookTable(line)
  {
    StripBothEnds(line);
    hide LStrip, RStrip, Blank;
  }

  lemma {:induction false} StripWeight(line: string)
    requires !Blank(line)
    ensures RStrip(line) != line ==> LineWeight(RStrip(line)) < LineWeight(line)
    ensures LineWeight(RStrip(line)) <= LineWeight(line)
  {
    RStripTwice(line);
    if IsHookTable(RStrip(line)) {
      HookTableStripped(line);
    }
    hide RStrip, Blank, LStrip, IsSpace, IsBreak, IsHookTable;
  }

  lemma {:induction false} TrimWeight(lines: seq<string>)
    ensures Weight(TrimLines(lines)) <= Weight(lines)
    ensures TrimLines(lines) != lines ==> Weight(TrimLines(lines)) < Weight(lines)
  {
    if lines != [] {
      var init, last := lines[..|lines| - 1], lines[|lines| - 1];
      assert lines == init + [last];
      WeightAppend(init, [last]);
      if Blank(last) {
        TrimWeight(init);
        assert Weight([last]) == LineWeight(last) >= 1;
      } else {
        WeightAppend(init, [RStrip(last)]);
        StripWeight(last);
        assert Weight([last]) == LineWeight(last) && Weight([RStrip(last)]) == LineWeight(RStrip(last));
        if RStrip(last) == last {
          assert init + [RStrip(last)] == lines;
        }
      }
    }
  }

  // ----- the first line of a section -----

  lemma {:induction false} FirstLineOf(group: seq<string>)
    requires group != [] && forall i :: 0 <= i < |group| ==> BreakFree(group[i])
    ensures !Blank(group[0]) ==> !Blank(Join(group)) && FirstLine(Join(group)) == LStrip(group[0])
    ensures Blank(group[0]) && |group| > 1 ==> FirstLine(Join(group)) == FirstLine(Join(group[1..]))
    ensures Blank(group[0]) && |group| > 1 ==> (Blank(Join(group)) <==> Blank(Join(group[1..])))
  {
    hide Blank, LStrip, SplitLines, IsSpace, IsBreak;
    if |group| == 1 {
      if !Blank(group[0]) {
        FirstLineFollowed(group[0], "");
        assert group[0] + "" == group[0];
      }
    } else {
      var rest := "\n" + Join(group[1..]);
      assert Join(group) == group[0] + rest;
      LStripAppend(group[0], rest);
      BlankAppend(group[0], rest);
      if Blank(group[0]) {
        NewlineBlank();
        LStripAppend("\n", Join(group[1..]));
        BlankAppend("\n", Join(group[1..]));
      } else {
        FirstLineFollowed(group[0], rest);
      }
    }
  }

  lemma {:induction false} NewlineBlank()
    ensures Blank("\n")
  {
  }

  lemma {:induction false} FirstLineFollowed(line: string, rest: string)
    requires BreakFree(line) && !Blank(line) && (rest == "" || rest[0] == '\n')
    ensures FirstLine(line + rest) == LStrip(line)
  {
    NewlineBreaks();
    LStripShape(line);
    hide IsSpace, IsBreak, LStrip;
    LStripAppend(line, rest);
    BlankAppend(line, rest);
    var l := LStrip(line);
    assert l == line[|line| - |l|..];
    assert forall i :: 0 <= i < |l| ==> l[i] == line[|line| - |l| + i];
    assert l == "" ==> Blank(line);
    hide Blank, LStrip, IsSpace;
    var s := l + rest;
    assert s[..|l|] == l;
    BreakAtUnique(s, |l|);
  }

  /** A section whose first line is a hook table carries weight. */
  lemma {:induction false} HookSectionWeighs(group: seq<string>)
    requires group != [] && forall i :: 0 <= i < |group| ==> BreakFree(group[i])
    requires HOOK_TABLE <= FirstLine(Join(group))
    ensures Weight(group) >= 1
  {
    hide FirstLine, Join, Blank, BreakFree, LStrip, RStrip;
    FirstLineOf(group);
    assert LineWeight(group[0]) >= 1;
  }

  lemma {:induction false} DroppedIsHookSection(sections: seq<string>, i: nat)
    requires i < |sections| && Dropped(sections, i)
    ensures HOOK_TABLE <= FirstLine(sections[i])
  {
  }

  // ----- keeping sections -----

  /** What is left of section `i`. */
  function SectionLines(sections: seq<string>, groups: seq<seq<string>>, i: nat): seq<string>
    requires |sections| == |groups| && i < |groups|
  {
    if Dropped(sections, i) || Blank(sections[i]) then [] else TrimLines(groups[i])
  }

  function KeptLines(sections: seq<string>, groups: seq<seq<string>>, i: nat): seq<string>
    requires |sections| == |groups|
    decreases |groups| - i
  {
    if i >= |groups| then []
    else SectionLines(sections, groups, i) + KeptLines(sections, groups, i + 1)
  }

  function Flatten(groups: seq<seq<string>>, i: nat): seq<string>
    decreases |groups| - i
  {
    if i >= |groups| then [] else groups[i] + Flatten(groups, i + 1)
  }

  lemma {:induction false} FlattenGroups(lines: seq<string>)
    ensures Flatten(Groups(lines), 0) == lines
  {
    if lines != [] {
      var n := CutAt(lines, 1);
      FlattenGroups(lines[n..]);
      FlattenShift([lines[..n]], Groups(lines[n..]), 0);
    }
  }

  lemma {:induction false} FlattenShift(a: seq<seq<string>>, b: seq<seq<string>>, i: nat)
    ensures Flatten(a + b, |a| + i) == Flatten(b, i)
    decreases |b| - i
  {
    if i < |b| {
      assert (a + b)[|a| + i] == b[i];
      FlattenShift(a, b, i + 1);
    }
  }

  /** Lines of a text: break-free, and not ending in an empty line. */
  predicate TextLines(lines: seq<string>) {
    && (forall i :: 0 <= i < |lines| ==> BreakFree(lines[i]))
    && (lines != [] ==> lines[|lines| - 1] != "")
  }

  lemma {:induction false} JoinBoth(kept: seq<string>, section: string, lines: seq<string>, sections: seq<string>)
    requires kept != [] && Join(kept) == section
    requires Join(lines) == Join(sections) && (lines == [] <==> sections == [])
    ensures Join(kept + lines) == Join([section] + sections)
  {
    if lines == [] {
      assert kept + lines == kept && [section] + sections == [section];
    } else {
      JoinAppend(kept, lines);
      JoinAppend([section], sections);
    }
  }

  lemma {:induction false} TextLinesAppend(a: seq<string>, b: seq<string>)
    requires TextLines(a) && TextLines(b)
    ensures TextLines(a + b)
  {
  }

  /** The kept sections joined are the kept lines joined. */
  lemma {:induction false} KeptJoin(sections: seq<string>, groups: seq<seq<string>>, i: nat)
    requires sections == JoinAll(groups)
    requires forall g, k :: 0 <= g < |groups| && 0 <= k < |groups[g]| ==> BreakFree(groups[g][k])
    ensures Join(KeptFrom(sections, i)) == Join(KeptLines(sections, groups, i))
    ensures KeptFrom(sections, i) == [] <==> KeptLines(sections, groups, i) == []
    ensures TextLines(KeptLines(sections, groups, i))
    decreases |groups| - i
  {
    hide Dropped, RStrip, TrimLines, Blank, BreakFree, Join, TextLines;
    if i >= |groups| {
      NoTextLines();
    } else {
      KeptJoin(sections, groups, i + 1);
      var lines, texts := KeptLines(sections, groups, i + 1), KeptFrom(sections, i + 1);
      if Dropped(sections, i) || Blank(sections[i]) {
        assert KeptLines(sections, groups, i) == [] + lines == lines;
        assert KeptFrom(sections, i) == [] + texts == texts;
      } else {
        KeptOne(groups[i]);
        JoinBoth(TrimLines(groups[i]), RStrip(sections[i]), lines, texts);
        TextLinesAppend(TrimLines(groups[i]), lines);
        assert KeptLines(sections, groups, i) == TrimLines(groups[i]) + lines;
        assert KeptFrom(sections, i) == [RStrip(sections[i])] + texts;
      }
    }
  }

  lemma {:induction false} NoTextLines()
    ensures TextLines([])
  {
  }

  lemma {:induction false} KeptOne(group: seq<string>)
    requires forall k :: 0 <= k < |group| ==> BreakFree(group[k])
    requires !Blank(Join(group))
    ensures TrimLines(group) != [] && TextLines(TrimLines(group)) && Join(TrimLines(group)) == RStrip(Join(group))
  {
    TrimJoin(group);
    RStripBlank(Join(group));
    hide RStrip, Blank, IsBreak;
    var t := TrimLines(group);
    assert t != [];
    TrimmedLines(group);
  }

  lemma {:induction false} TrimmedLines(group: seq<string>)
    requires forall k :: 0 <= k < |group| ==> BreakFree(group[k])
    ensures TextLines(TrimLines(group))
  {
    hide IsSpace, IsBreak;
    if group != [] {
      var init, last := group[..|group| - 1], group[|group| - 1];
      RStripBlank(last);
      if Blank(last) {
        TrimmedLines(init);
      } else {
        RStripShape(last);
        PrefixBreakFree(last, RStrip(last));
        hide RStrip, BreakFree, Blank;
        assert TrimLines(group) == init + [RStrip(last)];
      }
    }
  }

  lemma {:induction false} PrefixBreakFree(line: string, prefix: string)
    requires BreakFree(line) && |prefix| <= |line| && prefix == line[..|prefix|]
    ensures BreakFree(prefix)
  {
  }

  /** Section `i` is left exactly as it is. */
  predicate SettledAt(sections: seq<string>, i: nat)
    requires i < |sections|
  {
    !Dropped(sections, i) && !Blank(sections[i]) && RStrip(sections[i]) == sections[i]
  }

  /** Keeping never adds weight, and keeps all of it only if every section is settled. */
  lemma {:induction false} KeptWeight(sections: seq<string>, groups: seq<seq<string>>, i: nat)
    requires sections == JoinAll(groups) && i <= |groups|
    requires forall g :: 0 <= g < |groups| ==> groups[g] != []
    requires forall g, k :: 0 <= g < |groups| && 0 <= k < |groups[g]| ==> BreakFree(groups[g][k])
    ensures Weight(KeptLines(sections, groups, i)) <= Weight(Flatten(groups, i))
    ensures Weight(KeptLines(sections, groups, i)) == Weight(Flatten(groups, i)) ==>
              forall j :: i <= j < |groups| ==> SettledAt(sections, j)
    ensures (forall j :: i <= j < |groups| ==> SettledAt(sections, j)) ==>
              KeptLines(sections, groups, i) == Flatten(groups, i)
    decreases |groups| - i
  {
    hide SectionLines, Weight, BreakFree, SettledAt, JoinAll;
    if i < |groups| {
      KeptWeight(sections, groups, i + 1);
      WeightAppend(SectionLines(sections, groups, i), KeptLines(sections, groups, i + 1));
      WeightAppend(groups[i], Flatten(groups, i + 1));
      SectionWeight(sections, groups, i);
    }
  }

  lemma {:induction false} SectionWeight(sections: seq<string>, groups: seq<seq<string>>, i: nat)
    requires sections == JoinAll(groups) && i < |groups| && groups[i] != []
    requires forall k :: 0 <= k < |groups[i]| ==> BreakFree(groups[i][k])
    ensures var mine := SectionLines(sections, groups, i);
            && Weight(mine) <= Weight(groups[i])
            && (Weight(mine) == Weight(groups[i]) ==> SettledAt(sections, i))
            && (SettledAt(sections, i) ==> mine == groups[i])
  {
    hide Dropped;
    var group := groups[i];
    if Dropped(sections, i) {
      DroppedIsHookSection(sections, i);
      HookSectionWeighs(group);
    } else if Blank(sections[i]) {
      FirstLineOf(group);
      assert Blank(group[0]) && LineWeight(group[0]) >= 1;
    } else {
      TrimWeight(group);
      KeptOne(group);
      if RStrip(sections[i]) == sections[i] {
        SettledGroup(group);
      }
    }
  }

  /** A section whose end is already stripped has trimmed lines. */
  lemma {:induction false} SettledGroup(group: seq<string>)
    requires group != [] && RStrip(Join(group)) == Join(group) && !Blank(Join(group))
    ensures TrimLines(group) == group
  {
    var init, last := group[..|group| - 1], group[|group| - 1];
    assert group == init + [last];
    var text := Join(group);
    RStripBlank(text);
    RStripShape(text);
    assert text != "" && !IsSpace(text[|text| - 1]);
    NewlineBlank();
    NewlineBreaks();
    hide IsSpace, TrimLines, RStrip, Blank;
    if init != [] {
      JoinAppend(init, [last]);
      hide Join;
      var before := Join(init) + "\n";
      assert text == before + last;
      assert before[|before| - 1] == '\n';
      assert last != "" && last[|last| - 1] == text[|text| - 1];
    }
    TrimFixed(group);
  }

  // ----- the whole stage -----

  /** Every section is kept as it is. */
  predicate Settled(content: string) {
    forall i :: 0 <= i < |Sections(content)| ==> SettledAt(Sections(content), i)
  }

  /** The lines that dropping old hook sections leaves. */
  function RemainingLines(content: string): seq<string> {
    KeptLines(Sections(content), Groups(SplitLines(content)), 0)
  }

  lemma {:induction false} GroupsBreakFree(lines: seq<string>)
    requires forall i :: 0 <= i < |lines| ==> BreakFree(lines[i])
    ensures forall g, k :: 0 <= g < |Groups(lines)| && 0 <= k < |Groups(lines)[g]| ==> BreakFree(Groups(lines)[g][k])
  {
    hide IsBreak, Opens;
    if lines != [] {
      var n := CutAt(lines, 1);
      GroupsBreakFree(lines[n..]);
    }
  }

  /**
   Dropping old hook sections yields the remaining lines, whose weight is at most that of the
   text, and equal only if the text is settled.
   */
  lemma {:induction false} StripPreviousLines(content: string)
    ensures StripPrevious(content) == Join(RemainingLines(content))
    ensures TextLines(RemainingLines(content)) && SplitLines(StripPrevious(content)) == RemainingLines(content)
    ensures Weight(RemainingLines(content)) <= Weight(SplitLines(content))
    ensures Weight(RemainingLines(content)) == Weight(SplitLines(content)) ==> Settled(content)
    ensures Settled(content) ==> RemainingLines(content) == SplitLines(content)
  {
    hide Dropped, KeptLines, KeptFrom, Blank, IsBreak, LineWeight, Weight, Join, Opens, SettledAt, Groups, Flatten;
    var lines := SplitLines(content);
    var groups := Groups(lines);
    GroupsBreakFree(lines);
    FlattenGroups(lines);
    KeptJoin(Sections(content), groups, 0);
    KeptWeight(Sections(content), groups, 0);
    SplitJoin(RemainingLines(content));
  }

  /** For a text with plain newlines and a stripped end, dropping changes nothing exactly when it is settled. */
  lemma {:induction false} StripPreviousFixedIff(content: string)
    requires Clean(content) && RStrip(content) == content
    ensures StripPrevious(content) == content <==> Settled(content)
  {
    hide Settled, RemainingLines, StripPrevious, Weight;
    StripPreviousLines(content);
    if Settled(content) {
      if content != "" {
        assert !IsSpace(content[|content| - 1]);
      }
      JoinSplit(content);
    }
  }
}
