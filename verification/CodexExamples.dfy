/**
 Concrete texts on which merging twice differs from merging once.
 */
module CodexExamples {
  import opened Wrappers
  import opened Text
  import opened CodexConfig
  import opened CodexLines
  import opened CodexSections
  import opened CodexFeatures
  import opened CodexMerge
  import opened CodexStability
  import opened CodexSettling
  import opened CodexExposed
  import opened CodexIdempotence
  import opened CodexOrdinary

  // ----- printable lines -----

  /** Printable characters, and none that occurs in every marker. */
  predicate Printable(line: string) {
    forall i :: 0 <= i < |line| ==> ' ' <= line[i] <= '~' && line[i] != '>'
  }

  /** A printable line that neither starts nor ends with a space. */
  predicate Solid(line: string) {
    line != "" && line[0] != ' ' && line[|line| - 1] != ' ' && Printable(line)
  }

  lemma {:induction false} SolidLine(line: string)
    requires Solid(line)
    ensures BreakFree(line) && !Blank(line) && !IsSpaceEnd(line)
    ensures LStrip(line) == line && RStrip(line) == line && Strip(line) == line
  {
    PlainText(line);
    PrintableIsNoSpace(line[|line| - 1]);
    hide BreakFree, Blank, LStrip, RStrip, IsSpace;
  }

  lemma {:induction false} JoinHasNo(lines: seq<string>, c: char)
    requires c != '\n' && forall k :: 0 <= k < |lines| ==> c !in lines[k]
    ensures c !in Join(lines)
  {
    if |lines| > 1 {
      JoinHasNo(lines[1..], c);
    }
  }

  /** A text of printable lines holds no marker, so there is no block to strip. */
  lemma {:induction false} Mergeable(lines: seq<string>, block: string, marker: string)
    requires forall k :: 0 <= k < |lines| ==> Printable(lines[k])
    ensures Merge(Join(lines), block, marker).Ok? && StripBlock(Join(lines), marker) == Ok(Join(lines))
    ensures !Contains(Join(lines), StartMarker(marker))
  {
    assert StartMarker(marker)[2] == '>';
    JoinHasNo(lines, '>');
    hide StartMarker, Contains, CoreOf, Join;
    LetterMissing(Join(lines), StartMarker(marker), 2);
  }

  // ----- plain sections -----

  /** A section that starts with a plain line and ends in something. */
  predicate PlainGroup(group: seq<string>) {
    && group != [] && !Blank(group[0]) && !IsHookTable(group[0]) && LastKept(group)
    && forall k :: 0 <= k < |group| ==> BreakFree(group[k])
  }

  lemma {:induction false} PlainSection(group: seq<string>)
    requires PlainGroup(group)
    ensures !(HOOK_TABLE <= FirstLine(Join(group))) && !Blank(Join(group)) && RStrip(Join(group)) == Join(group)
  {
    hide Blank, LStrip, RStrip, BreakFree, Join, FirstLine, LastKept;
    FirstLineOf(group);
    EndKeptIff(group);
  }

  /** A section that is no hook table is never a Stop header left behind, and never dropped. */
  lemma {:induction false} PlainStays(sections: seq<string>, i: nat)
    requires i < |sections| && !(HOOK_TABLE <= FirstLine(sections[i]))
    ensures !Dropped(sections, i) && !StopLeftAt(sections, i)
  {
    hide FirstLine, Dropped, Blank, RStrip, Strip;
    if Dropped(sections, i) {
      DroppedIsHookSection(sections, i);
    }
    if Strip(sections[i]) == STOP_PARENT {
      LoneHeader(sections[i]);
      assert PlainEnd(HOOK_TABLE);
      PrefixesStripped(sections[i], HOOK_TABLE);
    }
  }

  /** Nor is it the Stop child of what comes before it. */
  lemma {:induction false} PlainNext(sections: seq<string>, i: nat)
    requires i < |sections| && !(HOOK_TABLE <= FirstLine(sections[i])) && !Blank(sections[i])
    ensures !IsManagedSection(sections[i]) && !(STOP_CHILD <= NextKeptLine(sections, i))
  {
    FixedPrefixes();
    assert HOOK_TABLE <= STOP_CHILD;
    hide FirstLine, Blank, RStrip, IsManagedSection, PlainEnd, HOOK_TABLE, STOP_CHILD, StopLeftAt;
    PlainStays(sections, i);
    PrefixesStripped(sections[i], STOP_CHILD);
    assert !IsManagedSection(sections[i]);
    hide Dropped;
    assert KeptFrom(sections, i)[0] == RStrip(sections[i]);
  }

  const OTHER_KEY := "hooks_x = 1"
  const OTHER_TABLE := "[y]"

  lemma {:induction false} OtherLines()
    ensures Solid(OTHER_KEY) && Solid(OTHER_TABLE)
    ensures HOOK_PREFIX <= OTHER_KEY && "[" <= OTHER_TABLE && OTHER_TABLE[|OTHER_TABLE| - 1] == ']'
    ensures |OTHER_TABLE| < |FEATURES| && |OTHER_TABLE| < |HOOK_TABLE|
  {
  }

  lemma {:induction false} FixedLines()
    ensures Printable(FEATURES) && Printable(HOOK_FEATURE) && Printable("")
  {
  }

  lemma {:induction false} OtherKey()
    ensures BreakFree(OTHER_KEY) && IsHooksLine(OTHER_KEY) && !IsSpaceEnd(OTHER_KEY)
  {
    hide BreakFree, Blank, LStrip, RStrip, Strip, IsSpaceEnd, Solid, OTHER_KEY, OTHER_TABLE;
    OtherLines();
    SolidLine(OTHER_KEY);
  }

  lemma {:induction false} OtherTable()
    ensures BreakFree(OTHER_TABLE) && IsHeader(OTHER_TABLE) && Opens(OTHER_TABLE)
    ensures PlainGroup([OTHER_TABLE]) && !Blank(OTHER_TABLE) && RStrip(OTHER_TABLE) == OTHER_TABLE
  {
    hide BreakFree, Blank, LStrip, RStrip, IsSpaceEnd, OTHER_KEY, OTHER_TABLE, FEATURES, HOOK_TABLE, Solid;
    OtherLines();
    SolidLine(OTHER_TABLE);
  }

  lemma {:induction false} NoLine()
    ensures BreakFree("") && Blank("") && !Opens("") && IsSpaceEnd("") && !IsHooksLine("") && !IsHeader("") &&
      !IsFeatures("")
  {
    EmptyIsNothing();
  }

  // ----- a Stop header left behind -----

  /** A Stop header with a space after it. */
  const SPACED_STOP := STOP_PARENT + " "

  lemma {:induction false} SpacedStop()
    ensures BreakFree(SPACED_STOP) && !Blank(SPACED_STOP) && Opens(SPACED_STOP)
    ensures LStrip(SPACED_STOP) == SPACED_STOP && Strip(SPACED_STOP) == STOP_PARENT
  {
    PlainText(STOP_PARENT);
    PlainIsNoBreak(' ');
    hide IsBreak, LStrip, RStrip;
    SpaceIsBlank();
    RStripAppend(STOP_PARENT, " ");
    LStripAppend(STOP_PARENT, " ");
    BlankAppend(STOP_PARENT, " ");
  }

  lemma {:induction false} SpaceIsBlank()
    ensures Blank(" ")
  {
  }

  /** It is not a Stop header to the drop stage. */
  lemma {:induction false} SpacedStopKept(sections: seq<string>, i: nat)
    requires i < |sections| && sections[i] == SPACED_STOP
    requires i + 1 < |sections| ==> !IsManagedSection(sections[i + 1])
    ensures !Dropped(sections, i)
  {
    SpacedStop();
    hide IsManagedSection, LStrip, RStrip, Blank, BreakFree, Contains, Strip;
    FirstLineOf([SPACED_STOP]);
    assert Join([SPACED_STOP]) == SPACED_STOP;
    assert |SPACED_STOP| == |STOP_PARENT| + 1 && |POST_PARENT| != |SPACED_STOP|;
    NoNames(SPACED_STOP);
    hide FirstLine;
  }

  lemma {:induction false} NoNames(section: string)
    requires |section| < |OWNER_NAME|
    ensures !IsManagedSection(section)
  {
  }

  /** Dropping old hook sections keeps a spaced Stop header the first time and drops it the second time. */
  lemma {:induction false} SpacedStopLost()
    ensures StripPrevious(StripPrevious(SPACED_STOP)) != StripPrevious(SPACED_STOP)
  {
    SpacedStop();
    hide LStrip, RStrip, Blank, BreakFree, StripPrevious, Dropped, Opens;
    OneLineText(SPACED_STOP);
    assert [SPACED_STOP] + [] == [SPACED_STOP];
    GroupsCut([SPACED_STOP], []);
    var sections := Sections(SPACED_STOP);
    assert sections == [SPACED_STOP];
    SpacedStopKept(sections, 0);
    hide Sections;
    assert StopLeftAt(sections, 0);
    StripPreviousIdempotentIff(SPACED_STOP);
  }

  const LOSING: seq<string> := [FEATURES, SPACED_STOP, OTHER_TABLE]

  lemma {:induction false} FeaturesOpens()
    ensures Opens(FEATURES)
  {
  }

  lemma {:induction false} LosingLines()
    ensures forall k :: 0 <= k < |LOSING| ==> BreakFree(LOSING[k]) && Opens(LOSING[k])
    ensures Stripped(LOSING)
  {
    hide BreakFree, Opens, Blank, RStrip, LStrip, IsFeatures, Strip, FEATURES, SPACED_STOP, OTHER_TABLE;
    hide Stripped, IsHeader;
    hide PlainGroup;
    FeaturesLine();
    FeaturesOpens();
    SpacedStop();
    OtherTable();
    assert LOSING == [FEATURES, SPACED_STOP] + [OTHER_TABLE];
    PlainTrim([FEATURES, SPACED_STOP], OTHER_TABLE);
  }

  /** Lines that all open sections are the sections. */
  lemma {:induction false} OpeningSections(lines: seq<string>)
    requires forall k :: 0 <= k < |lines| ==> Opens(lines[k])
    ensures LineSections(lines) == lines
  {
    hide Opens, Groups;
    if lines == [] {
      NoGroups();
    } else {
      var rest := lines[1..];
      assert lines == [lines[0]] + rest;
      OpeningSections(rest);
      GroupsCut([lines[0]], rest);
      JoinAllCons([lines[0]], Groups(rest));
    }
  }

  lemma {:induction false} LosingSections()
    ensures SplitLines(RStrip(Join(LOSING))) == LOSING && Sections(RStrip(Join(LOSING))) == LOSING
  {
    hide BreakFree, Opens, Stripped, RStrip, Groups, SplitLines, Join, LOSING;
    LosingLines();
    StrippedText(LOSING);
    OpeningSections(LOSING);
  }

  /** Its drop stage leaves the Stop header behind. */
  lemma {:induction false} LosingStages()
    ensures StopLeft(Sections(RStrip(Join(LOSING)))) && HasFeatures(BareLines(Join(LOSING)))
  {
    hide BreakFree, Opens, Blank, RStrip, LStrip, IsFeatures, SplitLines, Sections, StopLeft, BareLines, Join, Stripped;
    hide HasFeatures, FEATURES, SPACED_STOP, OTHER_TABLE;
    LosingLines();
    LosingSections();
    FeaturesLine();
    LosingLeft();
    FeaturesKept(Join(LOSING), 0);
  }

  lemma {:induction false} LosingLeft()
    ensures StopLeft(LOSING)
  {
    hide SPACED_STOP, OTHER_TABLE, FEATURES, STOP_PARENT;
    assert LOSING[1] == SPACED_STOP && LOSING[2] == OTHER_TABLE == Join([OTHER_TABLE]) && |LOSING| == 3;
    hide IsManagedSection, Dropped, Strip, BreakFree, Blank, Opens, LStrip, FirstLine, KeptFrom, NextKeptLine;
    hide PlainGroup;
    hide RStrip, IsHeader, STOP_CHILD, HOOK_TABLE, Join, LOSING;
    OtherTable();
    SpacedStop();
    PlainSection([OTHER_TABLE]);
    PlainNext(LOSING, 2);
    SpacedStopKept(LOSING, 1);
    assert StopLeftAt(LOSING, 1);
  }

  lemma {:induction false} StopParentPrintable()
    ensures Printable(STOP_PARENT) && Opens(STOP_PARENT)
  {
  }

  lemma {:induction false} LosingPrintable()
    ensures forall k :: 0 <= k < |LOSING| ==> Printable(LOSING[k])
  {
    FixedLines();
    OtherLines();
    StopParentPrintable();
    hide FEATURES, HOOK_FEATURE, OTHER_KEY, OTHER_TABLE, STOP_PARENT, HOOK_TABLE;
  }

  /** Merging keeps the spaced Stop header, and merging again drops it. */
  lemma {:induction false} MergeLosesSpacedStop(body: string, marker: string)
    requires PlainMarker(marker) && !Contains(body, EndMarker(marker))
    ensures var merged := Merge(Join(LOSING), Block(body, marker), marker);
            merged.Ok? && Merge(merged.value, Block(body, marker), marker) != merged
  {
    hide *;
    LosingPrintable();
    Mergeable(LOSING, Block(body, marker), marker);
    LosingStages();
    MergeIdempotentWithFeatures(Join(LOSING), body, marker);
  }

  // ----- an exposed end -----

  const EXPOSING: seq<string> := [FEATURES, HOOK_FEATURE, "", OTHER_KEY, OTHER_TABLE]

  lemma {:induction false} TwoLines(a: string, b: string)
    requires !Blank(a) && !IsHookTable(a) && BreakFree(a) && BreakFree(b) && !IsSpaceEnd(b)
    ensures PlainGroup([a, b])
  {
    hide Blank, IsHookTable, BreakFree, IsSpaceEnd;
  }

  lemma {:induction false} FourLines(a: string, b: string, c: string, d: string)
    requires !Blank(a) && !IsHookTable(a) && !IsSpaceEnd(d)
    requires BreakFree(a) && BreakFree(b) && BreakFree(c) && BreakFree(d)
    ensures PlainGroup([a, b, c, d])
  {
    hide Blank, IsHookTable, BreakFree, IsSpaceEnd;
  }

  /** Only the first line can open a section. */
  predicate OneOpening(group: seq<string>) {
    forall k :: 0 < k < |group| ==> !Opens(group[k])
  }

  lemma {:induction false} LineOpens(line: string)
    ensures OneOpening([line])
  {
  }

  lemma {:induction false} NoneOpens(a: string, b: string, c: string, d: string)
    requires !Opens(b) && !Opens(c) && !Opens(d)
    ensures OneOpening([a, b, c, d])
  {
    hide Opens;
  }

  lemma {:induction false} PlainFeatures()
    ensures !IsHookTable(FEATURES)
  {
    FeaturesLine();
    hide LStrip, Blank, RStrip, BreakFree, Strip;
    NotHookSection(FEATURES);
  }

  lemma {:induction false} TwoGroups(a: seq<string>, b: seq<string>)
    requires a != [] && b != [] && Opens(b[0])
    requires OneOpening(a) && OneOpening(b)
    ensures Groups(a + b) == [a, b]
  {
    hide Opens, Groups;
    assert b + [] == b;
    NoGroups();
    GroupsCut(b, []);
    GroupsCut(a, b);
  }

  const EXPOSED: seq<string> := [FEATURES, HOOK_FEATURE, "", OTHER_KEY]

  lemma {:induction false} ExposedGroup()
    ensures PlainGroup(EXPOSED) && OneOpening(EXPOSED)
  {
    hide FEATURES, HOOK_FEATURE, OTHER_KEY, PlainGroup, Opens;
    assert EXPOSED == [FEATURES, HOOK_FEATURE, "", OTHER_KEY];
    hide *;
    AddedLines();
    PlainFeatures();
    HookOpensNothing();
    OtherKey();
    NoLine();
    HooksLineOpensNothing(OTHER_KEY);
    FourLines(FEATURES, HOOK_FEATURE, "", OTHER_KEY);
    NoneOpens(FEATURES, HOOK_FEATURE, "", OTHER_KEY);
  }

  lemma {:induction false} ExposingLines()
    ensures Stripped(EXPOSING) && forall g :: 0 <= g < |Groups(EXPOSING)| ==> PlainGroup(Groups(EXPOSING)[g])
  {
    assert EXPOSING == EXPOSED + [OTHER_TABLE];
    ExposedGroup();
    assert forall k :: 0 <= k < |EXPOSED| ==> BreakFree(EXPOSED[k]);
    hide *;
    OtherTable();
    LineOpens(OTHER_TABLE);
    TwoGroups(EXPOSED, [OTHER_TABLE]);
    PlainTrim(EXPOSED, OTHER_TABLE);
  }

  /** A text of plain sections comes through the drop stage as it is. */
  lemma {:induction false} PlainSections(lines: seq<string>)
    requires Stripped(lines) && forall g :: 0 <= g < |Groups(lines)| ==> PlainGroup(Groups(lines)[g])
    ensures BareLines(Join(lines)) == lines && !StopLeft(Sections(RStrip(Join(lines))))
  {
    hide Stripped, PlainGroup, Blank, RStrip, Dropped, StopLeftAt, FirstLine, Join, BareLines, Groups, SplitLines;
    StrippedText(lines);
    SecondPassBare(lines);
    var sections := Sections(Join(lines));
    forall i | 0 <= i < |sections| ensures SettledAt(sections, i) && !StopLeftAt(sections, i) {
      PlainSection(Groups(lines)[i]);
      PlainStays(sections, i);
    }
  }

  lemma {:induction false} ExposingScan()
    ensures Scan(EXPOSING, 0, None) == (Some(0), 4) && ExposedAt(EXPOSING, 1, 4)
  {
    AddedLines();
    LineKinds(HOOK_FEATURE);
    OtherKey();
    LineKinds(OTHER_KEY);
    OtherTable();
    NoLine();
    hide BreakFree, Opens, Blank, RStrip, LStrip, IsHooksLine, IsHeader, IsFeatures, LineWeight, IsSpaceEnd;
    hide IsHookTable;
    hide FEATURES, HOOK_FEATURE, OTHER_KEY, OTHER_TABLE;
    var lines := EXPOSING;
    assert lines[0] == FEATURES && lines[1] == HOOK_FEATURE && lines[2] == "" && lines[3] == OTHER_KEY &&
        lines[4] == OTHER_TABLE;
    ScanRun(lines, 1, 0, 4);
    assert Scan(lines, 0, None) == Scan(lines, 1, Some(0));
    assert Uncovered(lines, 1, 2, 4);
  }

  lemma {:induction false} ExposingExposed()
    ensures HasFeatures(EXPOSING) && Exposed(EXPOSING)
  {
    hide Scan, ExposedAt, IsHooksLine, BreakFree, Blank, RStrip, LStrip, IsFeatures, LineWeight, HOOK_FEATURE;
    ExposingScan();
    AddedLines();
    assert EXPOSING[1] == HOOK_FEATURE;
  }

  lemma {:induction false} ExposingPrintable()
    ensures forall k :: 0 <= k < |EXPOSING| ==> Printable(EXPOSING[k])
  {
    FixedLines();
    OtherLines();
    hide Printable, FEATURES, HOOK_FEATURE, OTHER_KEY, OTHER_TABLE, HOOK_TABLE;
  }

  /**
   Two hooks lines in the features section, an empty line between them: removing the second one
   leaves the empty line at the end of the section, and merging again strips it.
   */
  lemma {:induction false} MergeExposesEnd(body: string, marker: string)
    requires PlainMarker(marker) && !Contains(body, EndMarker(marker))
    ensures var merged := Merge(Join(EXPOSING), Block(body, marker), marker);
            merged.Ok? && Merge(merged.value, Block(body, marker), marker) != merged
    ensures !StopLeft(Sections(RStrip(Join(EXPOSING))))
  {
    hide *;
    ExposingPrintable();
    Mergeable(EXPOSING, Block(body, marker), marker);
    ExposingExposed();
    ExposingLines();
    PlainSections(EXPOSING);
    MergeIdempotentWithFeatures(Join(EXPOSING), body, marker);
  }

  // ----- a table on top -----

  const TABLE_ONLY: seq<string> := [OTHER_TABLE]

  lemma {:induction false} TableLines()
    ensures Stripped(TABLE_ONLY) && Groups(TABLE_ONLY) == [TABLE_ONLY]
    ensures !HasFeatures(TABLE_ONLY) && Opens(TABLE_ONLY[0]) && PlainGroup(TABLE_ONLY)
  {
    hide BreakFree, Blank, RStrip, Opens, IsHeader, IsFeatures, Groups, Stripped, Scan, OTHER_TABLE, PlainGroup;
    OtherTable();
    LineKinds(OTHER_TABLE);
    LineOpens(OTHER_TABLE);
    NoGroups();
    assert TABLE_ONLY + [] == TABLE_ONLY && [] + [OTHER_TABLE] == TABLE_ONLY;
    GroupsCut(TABLE_ONLY, []);
    PlainTrim([], OTHER_TABLE);
    ScanFinds(TABLE_ONLY, 0, None);
  }

  lemma {:induction false} TablePrintable()
    ensures Join(TABLE_ONLY) == OTHER_TABLE && forall k :: 0 <= k < |TABLE_ONLY| ==> Printable(TABLE_ONLY[k])
  {
    OtherLines();
    hide Printable, OTHER_KEY, OTHER_TABLE, HOOK_TABLE;
  }

  /**
   A table on the first line: the merge puts a features section and an empty line in front of it, and
   merging again strips the empty line.
   */
  lemma {:induction false} MergeTopsTable(body: string, marker: string)
    requires PlainMarker(marker) && !Contains(body, EndMarker(marker))
    ensures var merged := Merge(OTHER_TABLE, Block(body, marker), marker);
            merged.Ok? && Merge(merged.value, Block(body, marker), marker) != merged
  {
    hide *;
    TablePrintable();
    TableLines();
    Mergeable(TABLE_ONLY, Block(body, marker), marker);
    PlainSections(TABLE_ONLY);
    MergeIdempotentWithoutFeatures(OTHER_TABLE, body, marker);
  }

  // ----- a features section that runs on -----

  const STOP_TABLE := STOP_CHILD + "]]"
  const COMMAND := "command = \""
  const QUOTE := "\""
  const STOP_COMMAND := COMMAND + OLD_STOP_SCRIPT + QUOTE
  const TOOL_TABLE := "[tool] # c"
  const TOOL_KEY := "a = 1"
  const STOP_GROUP: seq<string> := [STOP_TABLE, STOP_COMMAND]
  const ON_GROUP: seq<string> := [FEATURES, HOOK_FEATURE]
  const TOOL_GROUP: seq<string> := [TOOL_TABLE, TOOL_KEY, "", OTHER_KEY]
  const RUNNING: seq<string> := ON_GROUP + ([STOP_PARENT] + (STOP_GROUP + (TOOL_GROUP + [OTHER_TABLE])))
  const RUNNING_GROUPS: seq<seq<string>> := [ON_GROUP, [STOP_PARENT], STOP_GROUP, TOOL_GROUP, [OTHER_TABLE]]

  lemma {:induction false} ToolLines()
    ensures Solid(TOOL_TABLE) && Solid(TOOL_KEY) && "[" <= TOOL_TABLE && TOOL_KEY[0] == 'a'
    ensures TOOL_TABLE[1] == 't' && TOOL_TABLE[|TOOL_TABLE| - 1] == 'c'
  {
  }

  lemma {:induction false} StopLines()
    ensures Solid(STOP_TABLE) && STOP_PREFIX <= STOP_CHILD && "[" <= STOP_CHILD
  {
  }

  lemma {:induction false} CommandLines()
    ensures Solid(COMMAND) && Solid(QUOTE) && COMMAND[0] == 'c'
  {
  }

  lemma {:induction false} ScriptLine()
    ensures Printable(OLD_STOP_SCRIPT)
  {
  }

  lemma {:induction false} StopTable()
    ensures BreakFree(STOP_TABLE) && Opens(STOP_TABLE) && !Blank(STOP_TABLE)
    ensures LStrip(STOP_TABLE) == STOP_TABLE && STOP_CHILD <= STOP_TABLE && STOP_PREFIX <= STOP_TABLE
  {
    StopLines();
    hide BreakFree, Blank, LStrip, RStrip, Strip, IsSpaceEnd, Solid, STOP_CHILD, STOP_PREFIX;
    SolidLine(STOP_TABLE);
  }

  lemma {:induction false} StopCommand()
    ensures BreakFree(STOP_COMMAND) && !Opens(STOP_COMMAND) && Contains(STOP_COMMAND, OLD_STOP_SCRIPT)
    ensures Printable(STOP_COMMAND)
  {
    CommandLines();
    ScriptLine();
    hide BreakFree, Blank, LStrip, RStrip, Strip, IsSpaceEnd, COMMAND, QUOTE, OLD_STOP_SCRIPT;
    assert STOP_COMMAND[0] == COMMAND[0];
    SolidLine(STOP_COMMAND);
    assert At(STOP_COMMAND, OLD_STOP_SCRIPT, |COMMAND|);
  }

  lemma {:induction false} ToolTable()
    ensures BreakFree(TOOL_TABLE) && Opens(TOOL_TABLE) && !Blank(TOOL_TABLE)
    ensures !IsHeader(TOOL_TABLE) && !IsFeatures(TOOL_TABLE) && !IsHooksLine(TOOL_TABLE) && !IsHookTable(TOOL_TABLE)
  {
    hide BreakFree, Blank, LStrip, RStrip, Strip, IsSpaceEnd, Solid, TOOL_TABLE, TOOL_KEY;
    ToolLines();
    SolidLine(TOOL_TABLE);
    assert FEATURES[1] == 'f' && HOOK_TABLE[1] == '[' && HOOK_PREFIX[0] == 'h';
  }

  lemma {:induction false} ToolKey()
    ensures BreakFree(TOOL_KEY) && !Opens(TOOL_KEY) && !IsHeader(TOOL_KEY) && !IsFeatures(TOOL_KEY)
  {
    hide BreakFree, Blank, LStrip, RStrip, Strip, IsSpaceEnd, Solid, TOOL_TABLE, TOOL_KEY;
    ToolLines();
    SolidLine(TOOL_KEY);
    assert FEATURES[0] == '[';
  }

  lemma {:induction false} StopParent()
    ensures BreakFree(STOP_PARENT) && Opens(STOP_PARENT) && !Blank(STOP_PARENT)
    ensures LStrip(STOP_PARENT) == STOP_PARENT && IsHeader(STOP_PARENT)
  {
    hide BreakFree, Blank, LStrip, RStrip, Strip, Contains, Opens, STOP_PARENT, IsHeader;
    StopHeader();
    StopStripped();
    NoFeaturesIn(STOP_PARENT);
    StopParentPrintable();
    OpensIsNotBlank(STOP_PARENT);
  }

  lemma {:induction false} OpeningLines()
    ensures !Opens(HOOK_FEATURE) && Opens(STOP_PARENT) && Opens(STOP_TABLE) && !Opens(STOP_COMMAND) && Opens(TOOL_TABLE)
    ensures !Opens(TOOL_KEY) && !Opens("") && !Opens(OTHER_KEY) && Opens(OTHER_TABLE)
  {
    HookOpensNothing();
    StopParent();
    StopTable();
    StopCommand();
    ToolTable();
    ToolKey();
    NoLine();
    OtherKey();
    HooksLineOpensNothing(OTHER_KEY);
    OtherTable();
    hide *;
  }

  lemma {:induction false} FiveGroups(a: seq<string>, b: seq<string>, c: seq<string>, d: seq<string>, e: seq<string>)
    requires a != [] && b != [] && c != [] && d != [] && e != []
    requires Opens(b[0]) && Opens(c[0]) && Opens(d[0]) && Opens(e[0])
    requires OneOpening(a) && OneOpening(b) && OneOpening(c) && OneOpening(d) && OneOpening(e)
    ensures Groups(a + (b + (c + (d + e)))) == [a, b, c, d, e]
  {
    hide Opens, Groups;
    TwoGroups(d, e);
    GroupsCut(c, d + e);
    GroupsCut(b, c + (d + e));
    GroupsCut(a, b + (c + (d + e)));
  }

  lemma {:induction false} OneOpens(a: string, b: string)
    requires !Opens(b)
    ensures OneOpening([a]) && OneOpening([a, b])
  {
    hide Opens;
  }

  lemma {:induction false} RunningGroups()
    ensures Groups(RUNNING) == RUNNING_GROUPS
  {
    hide FEATURES, HOOK_FEATURE, STOP_PARENT, STOP_TABLE, STOP_COMMAND, TOOL_TABLE, TOOL_KEY, OTHER_KEY, OTHER_TABLE;
    hide Opens, Groups, OneOpening;
    OpeningLines();
    OneOpens(FEATURES, HOOK_FEATURE);
    OneOpens(STOP_PARENT, HOOK_FEATURE);
    OneOpens(STOP_TABLE, STOP_COMMAND);
    NoneOpens(TOOL_TABLE, TOOL_KEY, "", OTHER_KEY);
    OneOpens(OTHER_TABLE, HOOK_FEATURE);
    FiveGroups(ON_GROUP, [STOP_PARENT], STOP_GROUP, TOOL_GROUP, [OTHER_TABLE]);
  }

  lemma {:induction false} OnGroup()
    ensures PlainGroup(ON_GROUP)
  {
    hide FEATURES, HOOK_FEATURE, PlainGroup;
    assert ON_GROUP == [FEATURES, HOOK_FEATURE];
    hide *;
    AddedLines();
    HookEnds();
    PlainFeatures();
    TwoLines(FEATURES, HOOK_FEATURE);
  }

  lemma {:induction false} ToolGroup()
    ensures PlainGroup(TOOL_GROUP)
  {
    hide TOOL_TABLE, TOOL_KEY, OTHER_KEY, PlainGroup;
    assert TOOL_GROUP == [TOOL_TABLE, TOOL_KEY, "", OTHER_KEY];
    hide *;
    ToolTable();
    ToolKey();
    OtherKey();
    NoLine();
    FourLines(TOOL_TABLE, TOOL_KEY, "", OTHER_KEY);
  }

  lemma {:induction false} RunningLines()
    ensures Stripped(RUNNING)
  {
    AddedLines();
    ToolTable();
    ToolKey();
    OtherKey();
    OtherTable();
    NoLine();
    StopParent();
    StopTable();
    StopCommand();
    hide BreakFree, Opens, Blank, RStrip, LStrip, IsHooksLine, IsHeader, IsFeatures, LineWeight, IsSpaceEnd, HOOK_TABLE;
    hide FEATURES, HOOK_FEATURE, TOOL_TABLE, TOOL_KEY, OTHER_KEY, OTHER_TABLE, STOP_PARENT, STOP_TABLE, STOP_COMMAND;
    hide Contains;
    var init := ON_GROUP + [STOP_PARENT] + STOP_GROUP + TOOL_GROUP;
    assert RUNNING == init + [OTHER_TABLE];
    PlainTrim(init, OTHER_TABLE);
  }

  /** The managed Stop section and its parent are dropped. */
  lemma {:induction false} RunningDropped(sections: seq<string>)
    requires sections == JoinAll(RUNNING_GROUPS)
    ensures Dropped(sections, 1) && Dropped(sections, 2)
  {
    StopParent();
    StopTable();
    StopCommand();
    hide BreakFree, Opens, Blank, LStrip, Contains, FirstLine, Join;
    hide STOP_PARENT, STOP_TABLE, STOP_COMMAND, OLD_STOP_SCRIPT, OWNER_NAME, OLD_POST_SCRIPT, STOP_CHILD, STOP_PREFIX;
    FirstLineOf([STOP_PARENT]);
    FirstLineOf(STOP_GROUP);
    StopScriptPlain();
    ContainsJoin(STOP_GROUP, OLD_STOP_SCRIPT);
    assert STOP_GROUP[1] == STOP_COMMAND;
    assert sections[1] == Join([STOP_PARENT]) && sections[2] == Join(STOP_GROUP);
    assert IsManagedSection(sections[2]);
    assert IsParent(sections[1], sections[2]);
    assert OwnsManaged(sections, 1);
  }

  const RUNNING_BARE: seq<string> := ON_GROUP + (TOOL_GROUP + [OTHER_TABLE])

  lemma {:induction false} PlainKept(sections: seq<string>, groups: seq<seq<string>>, i: nat)
    requires sections == JoinAll(groups) && i < |groups| && PlainGroup(groups[i])
    ensures KeptLines(sections, groups, i) == groups[i] + KeptLines(sections, groups, i + 1) && !StopLeftAt(sections, i)
  {
    hide Blank, RStrip, LStrip, BreakFree, FirstLine, Dropped, Join, StopLeftAt, KeptLines, IsSpaceEnd, IsHookTable;
    KeptStep(sections, groups, i);
    PlainSection(groups[i]);
    PlainStays(sections, i);
    TrimFixed(groups[i]);
  }

  lemma {:induction false} GoneKept(sections: seq<string>, groups: seq<seq<string>>, i: nat)
    requires |sections| == |groups| && i < |groups| && Dropped(sections, i)
    ensures KeptLines(sections, groups, i) == KeptLines(sections, groups, i + 1) && !StopLeftAt(sections, i)
  {
    hide Blank, Dropped, KeptLines, Strip;
    KeptStep(sections, groups, i);
    NothingBefore(KeptLines(sections, groups, i + 1));
  }

  lemma {:induction false} NoneLeft(sections: seq<string>)
    requires |sections| == 5
    requires !StopLeftAt(sections, 0) && !StopLeftAt(sections, 1) && !StopLeftAt(sections, 2)
    requires !StopLeftAt(sections, 3) && !StopLeftAt(sections, 4)
    ensures !StopLeft(sections)
  {
    hide StopLeftAt;
  }

  lemma {:induction false} MiddleGone(sections: seq<string>, groups: seq<seq<string>>)
    requires sections == JoinAll(groups) && |groups| == 5
    requires PlainGroup(groups[0]) && PlainGroup(groups[3]) && PlainGroup(groups[4])
    requires Dropped(sections, 1) && Dropped(sections, 2)
    ensures KeptLines(sections, groups, 0) == groups[0] + (groups[3] + groups[4]) && !StopLeft(sections)
  {
    hide *;
    PlainKept(sections, groups, 0);
    GoneKept(sections, groups, 1);
    GoneKept(sections, groups, 2);
    PlainKept(sections, groups, 3);
    PlainKept(sections, groups, 4);
    NoneKept(sections, groups, 5);
    NoneLeft(sections);
    assert groups[4] + [] == groups[4];
  }

  lemma {:induction false} RunningBare()
    ensures SplitLines(RStrip(Join(RUNNING))) == RUNNING && BareLines(Join(RUNNING)) == RUNNING_BARE
    ensures !StopLeft(Sections(RStrip(Join(RUNNING))))
  {
    RunningLines();
    RunningGroups();
    OnGroup();
    ToolGroup();
    OtherTable();
    hide Stripped, RStrip, Groups, StopLeft, KeptLines, TrimLines, Join, SplitLines, RUNNING, PlainGroup;
    hide Dropped, Blank;
    hide ON_GROUP, STOP_PARENT, STOP_GROUP, TOOL_GROUP, OTHER_TABLE, Opens, IsHeader, BreakFree;
    StrippedText(RUNNING);
    var sections := Sections(Join(RUNNING));
    RunningDropped(sections);
    MiddleGone(sections, RUNNING_GROUPS);
    KeptEnd(sections, RUNNING_GROUPS, 0);
  }

  lemma {:induction false} RunningScan()
    ensures Scan(RUNNING, 0, None) == (Some(0), 2) && HookCount(RUNNING[0..2]) == 1
  {
    AddedLines();
    LineKinds(HOOK_FEATURE);
    LineKinds(FEATURES);
    StopParent();
    hide BreakFree, Opens, Blank, RStrip, LStrip, IsHooksLine, IsHeader, IsFeatures, LineWeight, IsHookTable, Scan;
    hide FEATURES, HOOK_FEATURE, STOP_PARENT, STOP_GROUP, TOOL_GROUP, OTHER_TABLE, HookCount;
    var lines := RUNNING;
    assert lines[0] == FEATURES && lines[1] == HOOK_FEATURE && lines[2] == STOP_PARENT;
    ScanRun(lines, 1, 0, 2);
    FirstScan(lines);
    assert lines[0..2] == [FEATURES, HOOK_FEATURE];
    OneCounted(FEATURES, HOOK_FEATURE);
  }

  lemma {:induction false} FirstScan(lines: seq<string>)
    requires lines != [] && IsFeatures(lines[0])
    ensures Scan(lines, 0, None) == Scan(lines, 1, Some(0))
  {
    hide IsFeatures;
  }

  lemma {:induction false} OneCounted(a: string, b: string)
    requires !IsHooksLine(a) && IsHooksLine(b)
    ensures HookCount([a, b]) == 1
  {
    hide IsHooksLine;
    assert [a, b][1..] == [b] && [b][1..] == [];
    assert HookCount([b]) == 1;
  }

  lemma {:induction false} RunningExposed()
    ensures HasFeatures(RUNNING_BARE) && Exposed(RUNNING_BARE)
  {
    AddedLines();
    LineKinds(HOOK_FEATURE);
    ToolTable();
    ToolKey();
    OtherKey();
    LineKinds(OTHER_KEY);
    OtherTable();
    NoLine();
    hide BreakFree, Opens, Blank, RStrip, LStrip, IsHooksLine, IsHeader, IsFeatures, LineWeight, IsSpaceEnd;
    hide IsHookTable;
    hide FEATURES, HOOK_FEATURE, TOOL_TABLE, TOOL_KEY, OTHER_KEY, OTHER_TABLE, Scan, PlainGroup;
    var lines := RUNNING_BARE;
    assert lines == [FEATURES, HOOK_FEATURE, TOOL_TABLE, TOOL_KEY, "", OTHER_KEY, OTHER_TABLE];
    ScanRun(lines, 1, 0, 6);
    FirstScan(lines);
    assert Uncovered(lines, 1, 4, 6);
    assert ExposedAt(lines, 1, 6);
  }

  lemma {:induction false} RunningPrintable()
    ensures forall k :: 0 <= k < |RUNNING| ==> Printable(RUNNING[k])
  {
    FixedLines();
    OtherLines();
    ToolLines();
    StopLines();
    StopParentPrintable();
    StopCommand();
    hide Printable, Contains, BreakFree, Opens, FEATURES, HOOK_FEATURE, OTHER_KEY, OTHER_TABLE, TOOL_TABLE, TOOL_KEY;
    hide STOP_PARENT, STOP_TABLE, STOP_COMMAND, STOP_PREFIX, STOP_CHILD, HOOK_TABLE;
  }

  /**
   One hooks line in the features section of the text is not enough: once the Stop sections behind
   it are dropped, the section runs on into a table whose header line ends in a comment, finds a
   second hooks line there and exposes the empty line in front of it.
   */
  lemma {:induction false} MergeRunsOn(body: string, marker: string)
    requires PlainMarker(marker) && !Contains(body, EndMarker(marker))
    ensures var merged := Merge(Join(RUNNING), Block(body, marker), marker);
            merged.Ok? && Merge(merged.value, Block(body, marker), marker) != merged
    ensures OneHooksLine(SplitLines(RStrip(Join(RUNNING)))) && !StopLeft(Sections(RStrip(Join(RUNNING))))
  {
    RunningScan();
    assert OneHooksLine(RUNNING);
    hide *;
    RunningPrintable();
    Mergeable(RUNNING, Block(body, marker), marker);
    RunningBare();
    RunningExposed();
    MergeIdempotentWithFeatures(Join(RUNNING), body, marker);
  }
}
