/**
 Dropping old hook sections a second time: stripping the end of a lone Stop header can turn
 it into an orphan that the next pass drops.
 */
module CodexSections {
  import opened Wrappers
  import opened Text
  import opened CodexConfig
  import opened CodexLines

  /** The first line of the first section kept from `i` on. */
  function NextKeptLine(sections: seq<string>, i: nat): string {
    var kept := KeptFrom(sections, i);
    if kept == [] then "" else FirstLine(kept[0])
  }

  /** Section `i` is kept, holds nothing but a Stop header, and no Stop child follows it any more. */
  predicate StopLeftAt(sections: seq<string>, i: nat)
    requires i < |sections|
  {
    !Dropped(sections, i) && Strip(sections[i]) == STOP_PARENT && !(STOP_CHILD <= NextKeptLine(sections, i + 1))
  }

  // ----- what stripping its end does to a section -----

  /** Stripping the end of a section changes its first line only if that is its only line. */
  lemma {:induction false} FirstLineStripped(s: string)
    requires !Blank(s)
    ensures !Blank(RStrip(s))
    ensures var f, r := FirstLine(s), FirstLine(RStrip(s)); r == f || (r == RStrip(f) && r == Strip(s))
  {
    RStripTwice(s);
    StripBothEnds(s);
    LStripShape(s);
    var u := LStrip(s);
    assert u == "" ==> Blank(s);
    RStripBlank(u);
    assert !Blank(u);
    hide LStrip, Blank, IsSpace, IsBreak;
    LineOfStripped(u);
  }

  lemma {:induction false} LineOfStripped(u: string)
    requires u != "" && RStrip(u) != ""
    ensures var f, r := SplitLines(u)[0], SplitLines(RStrip(u))[0]; r == f || (r == RStrip(f) && r == RStrip(u))
  {
    RStripShape(u);
    var v, k := RStrip(u), BreakAt(u);
    hide IsSpace, IsBreak, RStrip;
    if |v| > k {
      assert v[..k] == u[..k] && v[k] == u[k];
      BreakAtUnique(v, k);
      assert SplitLines(v)[0] == v[..k];
      assert SplitLines(u)[0] == u[..k];
    } else {
      var f := u[..k];
      assert v == f[..|v|] && v[..|v|] == v;
      PrefixBreakFree(f, v);
      BreakAtUnique(v, |v|);
      assert SplitLines(v) == [v];
      assert SplitLines(u)[0] == f;
      RStripUnique(f, v);
    }
  }

  /** Texts that end in a printable character are not shortened by stripping. */
  predicate PlainEnd(text: string) {
    text != "" && ' ' < text[|text| - 1] <= '~'
  }

  lemma {:induction false} PrefixStripped(line: string, prefix: string)
    requires PlainEnd(prefix)
    ensures prefix <= line <==> prefix <= RStrip(line)
  {
    PrintableIsNoSpace(prefix[|prefix| - 1]);
    RStripShape(line);
    hide IsSpace, RStrip;
    if prefix <= line {
      assert line[|prefix| - 1] == prefix[|prefix| - 1];
    }
  }

  lemma {:induction false} PlainContains(s: string, text: string)
    requires PlainEnd(text)
    ensures Contains(RStrip(s), text) <==> Contains(s, text)
  {
    PrintableIsNoSpace(text[|text| - 1]);
    hide IsSpace, RStrip, Contains;
    ContainsRStrip(s, text);
  }

  lemma {:induction false} FixedPrefixes()
    ensures PlainEnd(POST_PREFIX) && PlainEnd(STOP_PREFIX) && PlainEnd(POST_CHILD) && PlainEnd(STOP_CHILD)
  {
  }

  lemma {:induction false} FixedNames()
    ensures PlainEnd(OWNER_NAME) && PlainEnd(OLD_POST_SCRIPT) && PlainEnd(OLD_STOP_SCRIPT) && PlainEnd(OLD_MATCHER)
  {
  }

  lemma {:induction false} PrefixesStripped(s: string, prefix: string)
    requires !Blank(s) && PlainEnd(prefix)
    ensures prefix <= FirstLine(RStrip(s)) <==> prefix <= FirstLine(s)
  {
    FirstLineStripped(s);
    hide RStrip, FirstLine, Blank;
    PrefixStripped(FirstLine(s), prefix);
  }

  lemma {:induction false} SectionStripped(s: string)
    requires !Blank(s)
    ensures IsManagedSection(RStrip(s)) <==> IsManagedSection(s)
    ensures POST_CHILD <= FirstLine(RStrip(s)) <==> POST_CHILD <= FirstLine(s)
    ensures STOP_CHILD <= FirstLine(RStrip(s)) <==> STOP_CHILD <= FirstLine(s)
  {
    FixedPrefixes();
    FixedNames();
    hide IsSpace, RStrip, LStrip, Contains, FirstLine, Blank, PlainEnd;
    PrefixesStripped(s, POST_PREFIX);
    PrefixesStripped(s, STOP_PREFIX);
    PrefixesStripped(s, POST_CHILD);
    PrefixesStripped(s, STOP_CHILD);
    PlainContains(s, OWNER_NAME);
    PlainContains(s, OLD_POST_SCRIPT);
    PlainContains(s, OLD_STOP_SCRIPT);
  }

  // ----- the kept sections as a text of their own -----

  lemma {:induction false} OpensStripped(line: string)
    ensures Opens(RStrip(line)) <==> Opens(line)
  {
    PrintableIsNoSpace('[');
    hide IsSpace, RStrip;
    PrefixStripped(line, "[");
  }

  /** The trimmed groups of the kept sections. */
  function KeptGroups(sections: seq<string>, groups: seq<seq<string>>, i: nat): seq<seq<string>>
    requires |sections| == |groups|
    decreases |groups| - i
  {
    if i >= |groups| then []
    else
      (if Dropped(sections, i) || Blank(sections[i]) then [] else [TrimLines(groups[i])])
      + KeptGroups(sections, groups, i + 1)
  }

  lemma {:induction false} TrimmedGroup(group: seq<string>)
    requires group != [] && !Blank(Join(group))
    requires forall k :: 0 <= k < |group| ==> BreakFree(group[k])
    requires forall k :: 0 < k < |group| ==> !Opens(group[k])
    ensures var t := TrimLines(group);
            && t != [] && Join(t) == RStrip(Join(group))
            && (Opens(t[0]) <==> Opens(group[0])) && forall k :: 0 < k < |t| ==> !Opens(t[k])
  {
    KeptOne(group);
    TrimShape(group);
    hide Blank, BreakFree, RStrip, TrimLines, Opens, Join, TextLines;
    var t := TrimLines(group);
    forall k | 0 <= k < |t| ensures Opens(t[k]) <==> Opens(group[k]) {
      OpensStripped(group[k]);
    }
  }

  ghost predicate Grouped(groups: seq<seq<string>>) {
    && (forall g :: 0 <= g < |groups| ==> groups[g] != [])
    && (forall g :: 0 < g < |groups| ==> Opens(groups[g][0]))
    && (forall g, k :: 0 <= g < |groups| && 0 < k < |groups[g]| ==> !Opens(groups[g][k]))
    && (forall g, k :: 0 <= g < |groups| && 0 <= k < |groups[g]| ==> BreakFree(groups[g][k]))
  }

  /** Grouping the kept lines gives the kept groups back, and joining these gives the kept sections. */
  lemma {:induction false} GroupsOfKept(sections: seq<string>, groups: seq<seq<string>>, i: nat)
    requires sections == JoinAll(groups) && Grouped(groups)
    ensures var kept := KeptGroups(sections, groups, i);
            && Groups(KeptLines(sections, groups, i)) == kept
            && JoinAll(kept) == KeptFrom(sections, i)
    ensures i > 0 && KeptLines(sections, groups, i) != [] ==> Opens(KeptLines(sections, groups, i)[0])
    decreases |groups| - i
  {
    hide Dropped, Blank, RStrip, TrimLines, Opens, Join, JoinAll, Groups, BreakFree;
    if i >= |groups| {
      NoGroups();
    } else {
      GroupsOfKept(sections, groups, i + 1);
      var lines, kept := KeptLines(sections, groups, i + 1), KeptGroups(sections, groups, i + 1);
      if Dropped(sections, i) || Blank(sections[i]) {
        assert [] + lines == lines && [] + kept == kept;
      } else {
        var mine := TrimLines(groups[i]);
        TrimmedGroup(groups[i]);
        GroupsCut(mine, lines);
        assert KeptLines(sections, groups, i) == mine + lines;
        assert KeptFrom(sections, i) == [RStrip(sections[i])] + KeptFrom(sections, i + 1);
        JoinAllCons(mine, kept);
      }
    }
  }

  lemma {:induction false} NoGroups()
    ensures Groups([]) == []
  {
  }

  lemma {:induction false} JoinAllCons(group: seq<string>, rest: seq<seq<string>>)
    ensures JoinAll([group] + rest) == [Join(group)] + JoinAll(rest)
  {
  }

  lemma {:induction false} GroupedLines(lines: seq<string>)
    requires forall k :: 0 <= k < |lines| ==> BreakFree(lines[k])
    ensures Grouped(Groups(lines))
  {
    hide BreakFree, Opens;
    GroupsBreakFree(lines);
  }

  /** The sections of a text whose old hook sections were dropped are the kept ones. */
  lemma {:induction false} SectionsKept(content: string)
    ensures Sections(StripPrevious(content)) == KeptFrom(Sections(content), 0)
  {
    hide Groups, KeptFrom, KeptLines, Grouped, BreakFree, Join;
    var lines := SplitLines(content);
    GroupedLines(lines);
    GroupsOfKept(Sections(content), Groups(lines), 0);
    StripPreviousLines(content);
  }

  // ----- what a second pass drops -----

  lemma {:induction false} KeptPlain(sections: seq<string>, i: nat)
    ensures forall k :: 0 <= k < |KeptFrom(sections, i)| ==>
              var s := KeptFrom(sections, i)[k];
              !IsManagedSection(s) && !Blank(s) && RStrip(s) == s
    decreases |sections| - i
  {
    hide IsManagedSection, OwnsManaged, OrphanAt, Blank, RStrip;
    if i < |sections| {
      KeptPlain(sections, i + 1);
      if !Dropped(sections, i) && !Blank(sections[i]) {
        SectionStripped(sections[i]);
        RStripTwice(sections[i]);
      }
    }
  }

  /** The child of a kept parent is kept. */
  lemma {:induction false} ChildKept(sections: seq<string>, i: nat)
    requires i + 1 < |sections| && !Dropped(sections, i) && IsParent(sections[i], sections[i + 1])
    ensures POST_CHILD <= FirstLine(sections[i + 1]) ==> POST_CHILD <= NextKeptLine(sections, i + 1)
    ensures STOP_CHILD <= FirstLine(sections[i + 1]) ==> STOP_CHILD <= NextKeptLine(sections, i + 1)
  {
    hide IsManagedSection, FirstLine, Blank, RStrip, Contains;
    var child := sections[i + 1];
    var line := FirstLine(child);
    ChildIsNoParent(line);
    assert !OwnsManaged(sections, i);
    assert !IsManagedSection(child);
    assert !OwnsManaged(sections, i + 1) && !OrphanAt(sections, i + 1);
    BlankFirstLine(child);
    SectionStripped(child);
    hide Dropped;
    assert KeptFrom(sections, i + 1)[0] == RStrip(child);
  }

  lemma {:induction false} ChildIsNoParent(line: string)
    requires POST_CHILD <= line || STOP_CHILD <= line
    ensures line != "" && line != POST_PARENT && line != STOP_PARENT
  {
    assert |POST_CHILD| > |POST_PARENT| && |POST_CHILD| > |STOP_PARENT| && |STOP_CHILD| > |STOP_PARENT|;
    assert STOP_CHILD[8] != POST_PARENT[8];
  }

  lemma {:induction false} BlankFirstLine(s: string)
    ensures Blank(s) ==> FirstLine(s) == ""
  {
  }

  lemma {:induction false} StopHeader()
    ensures BreakFree(STOP_PARENT) && 0 < |STOP_PARENT| < |OLD_MATCHER|
  {
    PlainText(STOP_PARENT);
    hide BreakFree, Blank, RStrip, LStrip;
  }

  lemma {:induction false} PostHeader()
    ensures BreakFree(POST_PARENT) && 0 < |POST_PARENT| < |OLD_MATCHER|
  {
    PlainText(POST_PARENT);
    hide BreakFree, Blank, RStrip, LStrip;
  }

  lemma {:induction false} LoneHeader(s: string)
    requires Strip(s) == STOP_PARENT || Strip(s) == POST_PARENT
    ensures !Blank(s) && FirstLine(RStrip(s)) == Strip(s) && !Contains(RStrip(s), OLD_MATCHER)
  {
    var header := Strip(s);
    StopHeader();
    PostHeader();
    BlankLStrip(s);
    hide IsSpace, IsBreak, LStrip, RStrip, Blank, BreakFree, Contains;
    StripBothEnds(s);
    RStripTwice(s);
    OneLineText(header);
    NoMatcher(s);
  }

  lemma {:induction false} OneLineText(line: string)
    requires line != "" && BreakFree(line)
    ensures SplitLines(line) == [line]
  {
  }

  lemma {:induction false} NoMatcher(s: string)
    requires |Strip(s)| < |OLD_MATCHER|
    ensures !Contains(RStrip(s), OLD_MATCHER)
  {
    PrintableIsNoSpace('m');
    PrintableIsNoSpace('"');
    hide IsSpace, LStrip, RStrip;
    ContainsStrip(s, OLD_MATCHER);
    ContainsRStrip(s, OLD_MATCHER);
  }

  lemma {:induction false} BlankLStrip(s: string)
    ensures Blank(s) ==> Strip(s) == ""
  {
    LStripShape(s);
  }

  /** A kept section is dropped by a second pass exactly when it is a Stop header left behind. */
  lemma {:induction false} DroppedNext(sections: seq<string>, i: nat)
    requires i < |sections| && !Dropped(sections, i) && !Blank(sections[i])
    ensures Dropped([RStrip(sections[i])] + KeptFrom(sections, i + 1), 0) <==> StopLeftAt(sections, i)
  {
    hide Contains, FirstLine, Blank, RStrip, IsManagedSection, LStrip;
    var s := RStrip(sections[i]);
    var kept := KeptFrom(sections, i + 1);
    var again := [s] + kept;
    KeptPlain(sections, i);
    KeptPlain(sections, i + 1);
    SectionStripped(sections[i]);
    FirstLineStripped(sections[i]);
    EmptyFirstLine();
    assert NextSection(again, 0) == if kept == [] then "" else kept[0];
    assert !OwnsManaged(again, 0);
    assert Dropped(again, 0) <==> IsOrphan(s, NextSection(again, 0));
    assert FirstLine(NextSection(again, 0)) == NextKeptLine(sections, i + 1);
    OrphanOnce(sections, i);
    if i + 1 < |sections| && IsParent(sections[i], sections[i + 1]) {
      ChildKept(sections, i);
    }
    hide Strip;
    OrphanStripped(sections[i], NextKeptLine(sections, i + 1));
  }

  /** Whether the stripped section is an orphan, when the section itself was not. */
  lemma {:induction false} OrphanStripped(section: string, next: string)
    requires !Blank(section)
    requires FirstLine(section) == POST_PARENT && Contains(section, OLD_MATCHER) ==> POST_CHILD <= next
    requires FirstLine(section) == STOP_PARENT ==> STOP_CHILD <= next
    ensures var s := RStrip(section);
            (if FirstLine(s) == POST_PARENT then Contains(s, OLD_MATCHER) && !(POST_CHILD <= next)
             else FirstLine(s) == STOP_PARENT && !(STOP_CHILD <= next))
            <==> Strip(section) == STOP_PARENT && !(STOP_CHILD <= next)
  {
    assert STOP_PARENT[8] != POST_PARENT[8];
    FixedNames();
    hide Contains, FirstLine, Blank, RStrip, LStrip, Strip, PlainEnd;
    FirstLineStripped(section);
    PlainContains(section, OLD_MATCHER);
    if Strip(section) == STOP_PARENT || Strip(section) == POST_PARENT {
      LoneHeader(section);
    }
  }

  lemma {:induction false} EmptyFirstLine()
    ensures FirstLine("") == ""
  {
  }

  /** A section that is no orphan among all sections has its child, unless its matcher is missing. */
  lemma {:induction false} OrphanOnce(sections: seq<string>, i: nat)
    requires i < |sections| && !OrphanAt(sections, i)
    ensures FirstLine(sections[i]) == POST_PARENT && Contains(sections[i], OLD_MATCHER) ==>
              i + 1 < |sections| && IsParent(sections[i], sections[i + 1]) && POST_CHILD <= FirstLine(sections[i + 1])
    ensures FirstLine(sections[i]) == STOP_PARENT ==>
              i + 1 < |sections| && IsParent(sections[i], sections[i + 1]) && STOP_CHILD <= FirstLine(sections[i + 1])
  {
  }

  // ----- idempotence of the drop stage -----

  lemma {:induction false} DroppedLater(first: string, kept: seq<string>, j: nat)
    requires j < |kept|
    ensures Dropped([first] + kept, j + 1) <==> Dropped(kept, j)
  {
    hide IsManagedSection, IsParent, IsOrphan;
    var all := [first] + kept;
    assert all[j + 1] == kept[j] && NextSection(all, j + 1) == NextSection(kept, j);
    assert j + 1 < |kept| ==> all[j + 2] == kept[j + 1];
  }

  predicate DroppedAny(sections: seq<string>) {
    exists j :: 0 <= j < |sections| && Dropped(sections, j)
  }

  /** A second pass drops something from index `i` on exactly when a Stop header was left behind there. */
  lemma {:induction false} DroppedAgain(sections: seq<string>, i: nat)
    ensures DroppedAny(KeptFrom(sections, i)) <==> (exists j :: i <= j < |sections| && StopLeftAt(sections, j))
    decreases |sections| - i
  {
    hide Dropped, Blank, StopLeftAt, RStrip, DroppedAny;
    if i >= |sections| {
      NoneDropped();
    } else {
      DroppedAgain(sections, i + 1);
      var kept := KeptFrom(sections, i + 1);
      assert (exists j :: i <= j < |sections| && StopLeftAt(sections, j))
        <==> StopLeftAt(sections, i) || exists j :: i + 1 <= j < |sections| && StopLeftAt(sections, j);
      if Dropped(sections, i) || Blank(sections[i]) {
        NotLeft(sections, i);
        assert KeptFrom(sections, i) == [] + kept == kept;
      } else {
        DroppedNext(sections, i);
        assert KeptFrom(sections, i) == [RStrip(sections[i])] + kept;
        DroppedCons(RStrip(sections[i]), kept);
      }
    }
  }

  lemma {:induction false} NoneDropped()
    ensures !DroppedAny([])
  {
  }

  lemma {:induction false} DroppedCons(first: string, kept: seq<string>)
    ensures DroppedAny([first] + kept) <==> Dropped([first] + kept, 0) || DroppedAny(kept)
  {
    hide Dropped;
    var all := [first] + kept;
    forall j | 0 <= j < |kept| ensures Dropped(all, j + 1) <==> Dropped(kept, j) {
      DroppedLater(first, kept, j);
    }
    if j :| 0 <= j < |all| && Dropped(all, j) && j > 0 {
      assert Dropped(kept, j - 1);
    }
  }

  lemma {:induction false} NotLeft(sections: seq<string>, i: nat)
    requires i < |sections| && (Dropped(sections, i) || Blank(sections[i]))
    ensures !StopLeftAt(sections, i)
  {
    hide Dropped, FirstLine;
    if Strip(sections[i]) == STOP_PARENT {
      LoneHeader(sections[i]);
    }
  }

  /** A Stop header is left behind somewhere. */
  predicate StopLeft(sections: seq<string>) {
    exists i :: 0 <= i < |sections| && StopLeftAt(sections, i)
  }

  lemma {:induction false} SettledIffNoStopLeft(content: string)
    ensures Settled(StripPrevious(content)) <==> !StopLeft(Sections(content))
  {
    hide Dropped, StopLeftAt, Blank, RStrip, StripPrevious, KeptFrom, IsManagedSection, Sections;
    var sections := Sections(content);
    SectionsKept(content);
    KeptPlain(sections, 0);
    DroppedAgain(sections, 0);
    var kept := KeptFrom(sections, 0);
    assert Settled(StripPrevious(content)) <==> forall j :: 0 <= j < |kept| ==> SettledAt(kept, j);
    assert forall j :: 0 <= j < |kept| ==> (SettledAt(kept, j) <==> !Dropped(kept, j));
  }

  /**
   Dropping old hook sections is idempotent exactly when it leaves no section that holds just a
   Stop header, its trailing whitespace now stripped, without a Stop child after it.
   */
  lemma {:induction false} StripPreviousIdempotentIff(content: string)
    ensures StripPrevious(StripPrevious(content)) == StripPrevious(content) <==> !StopLeft(Sections(content))
  {
    hide Settled, StripPrevious, StopLeft, RemainingLines, TextLines;
    SettledIffNoStopLeft(content);
    StripPreviousLines(content);
    RemainingClean(content);
    StripPreviousFixedIff(StripPrevious(content));
  }

  lemma {:induction false} RemainingClean(content: string)
    ensures Clean(StripPrevious(content)) && RStrip(StripPrevious(content)) == StripPrevious(content)
  {
    StripPreviousLines(content);
    hide StripPrevious, IsBreak, IsSpace, RStrip, KeptLines, KeptFrom;
    JoinClean(RemainingLines(content));
    KeptEnd(Sections(content), Groups(SplitLines(content)), 0);
    TrimJoin(RemainingLines(content));
  }

  lemma {:induction false} TrimNone()
    ensures TrimLines([]) == []
  {
  }

  lemma {:induction false} SectionEnd(sections: seq<string>, groups: seq<seq<string>>, i: nat)
    requires |sections| == |groups| && i < |groups|
    ensures TrimLines(SectionLines(sections, groups, i)) == SectionLines(sections, groups, i)
  {
    TrimTwice(groups[i]);
    TrimNone();
    hide Dropped, Blank, TrimLines;
  }

  /** The kept lines have a stripped end. */
  lemma {:induction false} KeptEnd(sections: seq<string>, groups: seq<seq<string>>, i: nat)
    requires |sections| == |groups|
    ensures TrimLines(KeptLines(sections, groups, i)) == KeptLines(sections, groups, i)
    decreases |groups| - i
  {
    hide Dropped, Blank, RStrip, TrimLines, SectionLines;
    if i >= |groups| {
      TrimNone();
    } else {
      KeptEnd(sections, groups, i + 1);
      var mine, rest := SectionLines(sections, groups, i), KeptLines(sections, groups, i + 1);
      SectionEnd(sections, groups, i);
      if rest == [] {
        assert mine + rest == mine;
      } else {
        TrimEnd(mine, rest);
      }
    }
  }

  lemma {:induction false} TrimTwice(lines: seq<string>)
    ensures TrimLines(TrimLines(lines)) == TrimLines(lines)
  {
    hide Blank, RStrip;
    if lines != [] {
      var init, last := lines[..|lines| - 1], lines[|lines| - 1];
      if Blank(last) {
        TrimTwice(init);
      } else {
        RStripTwice(last);
        assert (init + [RStrip(last)])[..|init|] == init;
      }
    }
  }

  lemma {:induction false} TrimEnd(before: seq<string>, lines: seq<string>)
    requires lines != [] && TrimLines(lines) == lines
    ensures TrimLines(before + lines) == before + lines
  {
  }

  /** All a second pass can drop are Stop headers. */
  lemma {:induction false} DroppedIsStop(sections: seq<string>, i: nat)
    ensures forall j :: 0 <= j < |KeptFrom(sections, i)| && Dropped(KeptFrom(sections, i), j) ==>
              FirstLine(KeptFrom(sections, i)[j]) == STOP_PARENT
    decreases |sections| - i
  {
    hide Dropped, Blank, StopLeftAt, RStrip, FirstLine;
    if i < |sections| {
      DroppedIsStop(sections, i + 1);
      var kept := KeptFrom(sections, i + 1);
      if Dropped(sections, i) || Blank(sections[i]) {
        assert KeptFrom(sections, i) == [] + kept == kept;
      } else {
        var s := RStrip(sections[i]);
        DroppedNext(sections, i);
        if StopLeftAt(sections, i) {
          LeftIsStop(sections, i);
        }
        assert KeptFrom(sections, i) == [s] + kept;
        forall j | 0 <= j < |[s] + kept| && Dropped([s] + kept, j) ensures FirstLine(([s] + kept)[j]) == STOP_PARENT {
          if j > 0 {
            DroppedLater(s, kept, j - 1);
          }
        }
      }
    }
  }

  lemma {:induction false} LeftIsStop(sections: seq<string>, i: nat)
    requires i < |sections| && StopLeftAt(sections, i)
    ensures FirstLine(RStrip(sections[i])) == STOP_PARENT
  {
    hide Dropped, FirstLine, RStrip;
    LoneHeader(sections[i]);
  }
}
