/**
 What the merged text is made of, line by line: the surviving sections of the existing text, one
 enabled hooks line, and the block; and which sections of the user's it still holds.
 */
module CodexKept {
  import opened Wrappers
  import opened Text
  import opened CodexConfig
  import opened CodexLines
  import opened CodexSections
  import opened CodexFeatures
  import opened CodexMerge
  import opened CodexStability
  import opened CodexSettling
  import opened CodexExposed
  import opened CodexIdempotence
  import opened CodexOwnership

  // ----- the features section -----

  predicate SetsHooks(line: string) {
    "hooks" <= Strip(line)
  }

  predicate Bracketed(line: string) {
    var s := Strip(line);
    s != "" && s[0] == '[' && s[|s| - 1] == ']'
  }

  function WithoutHooks(lines: seq<string>): seq<string> {
    if lines == [] then []
    else (if SetsHooks(lines[0]) then [] else [lines[0]]) + WithoutHooks(lines[1..])
  }

  lemma {:induction false} RemovedIs(lines: seq<string>)
    ensures Normalized(lines, true) == WithoutHooks(lines)
  {
    hide Strip;
    if lines != [] {
      RemovedIs(lines[1..]);
    }
  }

  /** `now` has one enabled line where `was` had its first hooks line, or else at its end. */
  ghost predicate EnabledIn(was: seq<string>, now: seq<string>) {
    exists i :: 0 <= i <= |was| && EnabledAt(was, now, i)
  }

  ghost predicate EnabledAt(was: seq<string>, now: seq<string>, i: nat)
    requires i <= |was|
  {
    && (forall k :: 0 <= k < i ==> !SetsHooks(was[k]))
    && (i < |was| ==> SetsHooks(was[i]))
    && now == was[..i] + ["hooks = true"] + WithoutHooks(if i < |was| then was[i + 1..] else [])
  }

  lemma {:induction false} NormalizedIs(lines: seq<string>)
    ensures EnabledIn(lines, Normalized(lines, false))
  {
    hide IsHooksLine, Normalized;
    var i := FirstHooks(lines, 0, |lines|);
    assert forall k :: 0 <= k < i ==> !SetsHooks(lines[k]) by { HooksLinesAre(lines); }
    if i < |lines| {
      NormalizedFirst(lines, i);
      RemovedIs(lines[i + 1..]);
      HooksLinesAre(lines);
    } else {
      NormalizedAdded(lines);
      assert lines[..i] == lines && lines + [HOOK_FEATURE] + [] == lines + [HOOK_FEATURE];
    }
    assert EnabledAt(lines, Normalized(lines, false), i);
  }

  lemma {:induction false} HooksLinesAre(lines: seq<string>)
    ensures forall k :: 0 <= k < |lines| ==> (IsHooksLine(lines[k]) <==> SetsHooks(lines[k]))
  {
    hide Strip;
  }

  lemma {:induction false} KindsAre(line: string)
    ensures IsFeatures(line) <==> Strip(line) == "[features]"
    ensures IsHeader(line) <==> Bracketed(line) && Strip(line) != "[features]"
  {
    hide Strip;
  }

  /** Before the end of the features section no other header follows a features line. */
  lemma {:induction false} ScanEarliest(lines: seq<string>, i: nat, start: Option<nat>)
    requires i <= |lines| && (start.Some? ==> start.value < i)
    requires forall f, h :: 0 <= f < h < i && IsFeatures(lines[f]) ==> !IsHeader(lines[h])
    requires start.None? ==> forall f :: 0 <= f < i ==> !IsFeatures(lines[f])
    ensures forall f, h :: 0 <= f < h < Scan(lines, i, start).1 && IsFeatures(lines[f]) ==> !IsHeader(lines[h])
    decreases |lines| - i
  {
    hide IsFeatures, IsHeader;
    if i < |lines| {
      LineKinds(lines[i]);
      if IsFeatures(lines[i]) {
        ScanEarliest(lines, i + 1, Some(i));
      } else if !(start.Some? && IsHeader(lines[i])) {
        ScanEarliest(lines, i + 1, start);
      }
    }
  }

  /**
   The lines in parts: up to the features header, the lines of its section, and the rest from the next
   header on. It is the last features header before any other header follows one.
   */
  ghost predicate FeaturesParts(lines: seq<string>, front: seq<string>, region: seq<string>, rest: seq<string>) {
    && lines == front + region + rest
    && front != [] && Strip(front[|front| - 1]) == "[features]"
    && (forall k :: 0 <= k < |region| ==> !Bracketed(region[k]))
    && (rest != [] ==> Bracketed(rest[0]) && Strip(rest[0]) != "[features]")
    && (forall f, h :: 0 <= f < h < |front| && Strip(front[f]) == "[features]" && Bracketed(front[h]) ==>
          Strip(front[h]) == "[features]")
  }

  /** Enabling rewrites the lines of the features section and no others. */
  lemma {:induction false} EnsureIsParts(lines: seq<string>)
    returns (front: seq<string>, region: seq<string>, rest: seq<string>, now: seq<string>)
    requires HasFeatures(lines)
    ensures FeaturesParts(lines, front, region, rest) && EnabledIn(region, now)
    ensures EnsureLines(lines) == front + now + rest
  {
    hide IsFeatures, IsHeader, IsHooksLine, EnsureLines, Strip, Bracketed, EnabledIn, Normalized, Scan;
    front, region, rest := EnsureParts(lines);
    now := Normalized(region, false);
    NormalizedIs(region);
    ScanFinds(lines, 0, None);
    ScanEarliest(lines, 0, None);
    PartsKinds(lines, front, region, rest);
  }

  lemma {:induction false} PartsKinds(lines: seq<string>, front: seq<string>, region: seq<string>, rest: seq<string>)
    requires lines == front + region + rest && front != [] && IsFeatures(front[|front| - 1])
    requires forall k :: 0 <= k < |region| ==> !IsFeatures(region[k]) && !IsHeader(region[k])
    requires rest != [] ==> IsHeader(lines[|front| + |region|])
    requires forall f, h :: 0 <= f < h < |front| + |region| && IsFeatures(lines[f]) ==> !IsHeader(lines[h])
    ensures FeaturesParts(lines, front, region, rest)
  {
    hide IsFeatures, IsHeader, Strip, Bracketed;
    KindsAre(front[|front| - 1]);
    forall k | 0 <= k < |region| ensures !Bracketed(region[k]) {
      KindsAre(region[k]);
      BracketedFeatures(region[k]);
    }
    if rest != [] {
      assert lines[|front| + |region|] == rest[0];
      KindsAre(rest[0]);
    }
    forall f, h | 0 <= f < h < |front| && Strip(front[f]) == "[features]" && Bracketed(front[h])
      ensures Strip(front[h]) == "[features]"
    {
      assert lines[f] == front[f] && lines[h] == front[h];
      KindsAre(front[f]);
      KindsAre(front[h]);
    }
  }

  lemma {:induction false} BracketedFeatures(line: string)
    ensures Strip(line) == "[features]" ==> Bracketed(line)
  {
    hide Strip;
  }

  lemma {:induction false} HasFeaturesIff(lines: seq<string>)
    ensures HasFeatures(lines) <==> exists k :: 0 <= k < |lines| && Strip(lines[k]) == "[features]"
  {
    hide Scan, IsHeader, Strip;
    ScanFinds(lines, 0, None);
    if k :| 0 <= k < |lines| && Strip(lines[k]) == "[features]" {
      assert IsFeatures(lines[k]);
    }
  }

  // ----- the merged text -----

  lemma {:induction false} BareSurvives(stripped: string)
    ensures BareLines(stripped) == Surviving(GroupsOf(RStrip(stripped)), 0)
  {
    hide RStrip, Groups, SplitLines, BareLines, Surviving, LinesLeft, BreakFree;
    var text := RStrip(stripped);
    BareAreLeft(stripped);
    GroupsBreakFree(SplitLines(text));
    LeftSurvive(Sections(text), GroupsOf(text), 0);
  }

  /**
   The text in front of the block, in three cases. With nothing left it is a features section with the
   enabled line. Without a features section this is put in front of the lines left. Otherwise the lines
   of the features section are enabled, the others kept, and the end stripped.
   */
  ghost predicate FrontIs(left: seq<string>, core: string) {
    if left == [] then core == "[features]\nhooks = true"
    else if forall k :: 0 <= k < |left| ==> Strip(left[k]) != "[features]" then
      core == "[features]\nhooks = true\n\n" + Join(left)
    else
      exists front, region, rest, now ::
        FeaturesParts(left, front, region, rest) && EnabledIn(region, now) && core == RStrip(Join(front + now + rest))
  }

  /** The merged text: the surviving lines of the existing text, enabled, and the block behind them. */
  lemma {:induction false} MergedTextIs(existing: string, block: string, marker: string)
    requires Merge(existing, block, marker).Ok?
    ensures StripBlock(existing, marker).Ok?
    ensures var stripped := StripBlock(existing, marker).value;
            && Merge(existing, block, marker).value == CoreOf(stripped) + "\n\n" + block
            && FrontIs(Surviving(GroupsOf(RStrip(stripped)), 0), CoreOf(stripped))
  {
    hide CoreOf, Surviving, GroupsOf, RStrip, FrontIs;
    FrontOf(StripBlock(existing, marker).value);
  }

  lemma {:induction false} FrontOf(stripped: string)
    ensures FrontIs(Surviving(GroupsOf(RStrip(stripped)), 0), CoreOf(stripped))
  {
    BareSurvives(stripped);
    CoreIs(stripped);
    var left := BareLines(stripped);
    HasFeaturesIff(left);
    AddedJoin(left);
    hide CoreOf, Surviving, GroupsOf, RStrip, BareLines, FeaturesParts, EnabledIn, Strip, Join, TrimLines, Scan;
    if left != [] && HasFeatures(left) {
      TrimJoin(EnsureLines(left));
      var front, region, rest, now := EnsureIsParts(left);
    }
  }

  lemma {:induction false} AddedJoin(left: seq<string>)
    ensures Join([FEATURES, HOOK_FEATURE]) == "[features]\nhooks = true"
    ensures left != [] ==> Join([FEATURES, HOOK_FEATURE, ""] + left) == "[features]\nhooks = true\n\n" + Join(left)
  {
    assert [FEATURES, HOOK_FEATURE][1..] == [HOOK_FEATURE];
    AddedHeader();
    if left != [] {
      JoinAppend([FEATURES, HOOK_FEATURE, ""], left);
    }
  }

  /** Merging fails exactly if an end marker is missing behind the start marker that is cut at. */
  lemma {:induction false} MergeFailsIff(existing: string, block: string, marker: string)
    ensures Merge(existing, block, marker).Err? <==> StripBlock(existing, marker).Err?
  {
    hide CoreOf;
  }

  // ----- the user's sections in the merged text -----

  lemma {:induction false} WithoutAppend(a: seq<string>, b: seq<string>)
    ensures WithoutHooks(a + b) == WithoutHooks(a) + WithoutHooks(b)
  {
    hide SetsHooks;
    if a == [] {
      assert a + b == b;
    } else {
      assert (a + b)[1..] == a[1..] + b;
      WithoutAppend(a[1..], b);
    }
  }

  lemma {:induction false} WithoutNone(lines: seq<string>)
    requires forall k :: 0 <= k < |lines| ==> !SetsHooks(lines[k])
    ensures WithoutHooks(lines) == lines
  {
    hide SetsHooks;
    if lines != [] {
      WithoutNone(lines[1..]);
      assert lines == [lines[0]] + lines[1..];
    }
  }

  lemma {:induction false} WithoutTwice(lines: seq<string>)
    ensures WithoutHooks(WithoutHooks(lines)) == WithoutHooks(lines)
  {
    hide SetsHooks;
    if lines != [] {
      WithoutTwice(lines[1..]);
      var rest := WithoutHooks(lines[1..]);
      assert !SetsHooks(lines[0]) ==> ([lines[0]] + rest)[1..] == rest;
      assert [] + rest == rest;
    }
  }

  lemma {:induction false} HookLineSets()
    ensures SetsHooks("hooks = true") && WithoutHooks(["hooks = true"]) == []
  {
    HookLine();
    hide Strip, BreakFree, Blank, RStrip, LineWeight;
  }

  /** Reading over hooks lines, enabling changes nothing. */
  lemma {:induction false} EnabledKeeps(was: seq<string>, now: seq<string>)
    requires EnabledIn(was, now)
    ensures WithoutHooks(now) == WithoutHooks(was)
  {
    HookLineSets();
    hide SetsHooks, WithoutHooks;
    var i :| 0 <= i <= |was| && EnabledAt(was, now, i);
    var rest := if i < |was| then was[i + 1..] else [];
    WithoutAppend(was[..i] + ["hooks = true"], WithoutHooks(rest));
    WithoutAppend(was[..i], ["hooks = true"]);
    WithoutTwice(rest);
    if i < |was| {
      assert was == was[..i] + [was[i]] + rest;
      WithoutAppend(was[..i] + [was[i]], rest);
      WithoutAppend(was[..i], [was[i]]);
      WithoutOne(was[i]);
    } else {
      assert was == was[..i] && WithoutHooks(rest) == [] by { WithoutNothing(); }
    }
  }

  lemma {:induction false} WithoutOne(line: string)
    requires SetsHooks(line)
    ensures WithoutHooks([line]) == []
  {
    hide SetsHooks;
  }

  lemma {:induction false} WithoutNothing()
    ensures WithoutHooks([]) == []
  {
  }

  lemma {:induction false} SurvivingPart(groups: seq<seq<string>>, i: nat, j: nat)
    returns (before: seq<string>, after: seq<string>)
    requires i <= j < |groups| && !Goes(groups, j)
    ensures Surviving(groups, i) == before + Ended(groups[j]) + after
    decreases |groups| - i
  {
    hide Goes, Ended;
    if i == j {
      before, after := [], Surviving(groups, i + 1);
      assert [] + Ended(groups[j]) == Ended(groups[j]);
    } else {
      var later;
      later, after := SurvivingPart(groups, i + 1, j);
      var mine := if Goes(groups, i) then [] else Ended(groups[i]);
      before := mine + later;
      assert mine + (later + Ended(groups[j]) + after) == before + Ended(groups[j]) + after;
    }
  }

  /** The text holds, reading over hooks lines, the given lines in one piece. */
  ghost predicate HoldsLines(core: string, part: seq<string>) {
    exists lines, before, after ::
      core == RStrip(Join(lines)) && WithoutHooks(lines) == before + WithoutHooks(part) + after
  }

  lemma {:induction false} HeldIn(
    core: string, lines: seq<string>, before: seq<string>, part: seq<string>, after: seq<string>)
    requires core == RStrip(Join(lines)) && WithoutHooks(lines) == WithoutHooks(before + part + after)
    ensures HoldsLines(core, part)
  {
    hide SetsHooks, RStrip, Join, WithoutHooks;
    WithoutAppend(before + part, after);
    WithoutAppend(before, part);
    assert WithoutHooks(lines) == WithoutHooks(before) + WithoutHooks(part) + WithoutHooks(after);
  }

  /**
   Every section of the existing text that does not go and is not blank is in front of the block, in one
   piece: all of its lines, but for hooks lines where it meets the features section.
   */
  lemma {:induction false} MergeKeepsSection(existing: string, block: string, marker: string, i: nat)
    requires Merge(existing, block, marker).Ok?
    requires var groups := GroupsOf(RStrip(StripBlock(existing, marker).value));
             i < |groups| && !Goes(groups, i) && !Blank(Join(groups[i]))
    ensures var stripped := StripBlock(existing, marker).value;
            && Merge(existing, block, marker).value == CoreOf(stripped) + "\n\n" + block
            && HoldsLines(CoreOf(stripped), Ended(GroupsOf(RStrip(stripped))[i]))
  {
    hide CoreOf, Surviving, GroupsOf, RStrip, Goes, Ended, HoldsLines, Blank, StripBlock;
    MergedTextIs(existing, block, marker);
    var stripped := StripBlock(existing, marker).value;
    KeptInFront(stripped, i);
  }

  lemma {:induction false} KeptInFront(stripped: string, i: nat)
    requires var groups := GroupsOf(RStrip(stripped)); i < |groups| && !Goes(groups, i) && !Blank(Join(groups[i]))
    ensures HoldsLines(CoreOf(stripped), Ended(GroupsOf(RStrip(stripped))[i]))
  {
    var groups := GroupsOf(RStrip(stripped));
    EndedLines(groups[i]);
    hide *;
    var before, after := SurvivingPart(groups, 0, i);
    var left, part := Surviving(groups, 0), Ended(groups[i]);
    BareSurvives(stripped);
    CoreIs(stripped);
    CoreText(stripped, left);
    if HasFeatures(left) {
      var front, region, rest, now := EnsureIsParts(left);
      PartsJoin(left, front, region, rest);
      EnabledKeeps(region, now);
      WithoutAppend(front + now, rest);
      WithoutAppend(front, now);
      WithoutAppend(front + region, rest);
      WithoutAppend(front, region);
      HeldIn(CoreOf(stripped), EnsureLines(left), before, part, after);
    } else {
      var added := [FEATURES, HOOK_FEATURE, ""] + left;
      AddedHolds(CoreOf(stripped), before, part, after, left);
    }
  }

  lemma {:induction false} EndedLines(group: seq<string>)
    requires !Blank(Join(group))
    ensures Ended(group) != []
  {
    RStripBlank(Join(group));
    hide Blank, RStrip, Join;
  }

  lemma {:induction false} PartsJoin(lines: seq<string>, front: seq<string>, region: seq<string>, rest: seq<string>)
    requires FeaturesParts(lines, front, region, rest)
    ensures lines == front + region + rest
  {
  }

  lemma {:induction false} CoreText(stripped: string, left: seq<string>)
    requires left == BareLines(stripped) && left != []
    ensures HasFeatures(left) ==> CoreOf(stripped) == RStrip(Join(EnsureLines(left)))
    ensures !HasFeatures(left) ==> CoreOf(stripped) == RStrip(Join([FEATURES, HOOK_FEATURE, ""] + left))
  {
    CoreIs(stripped);
    CoreStripped(stripped);
    StrippedText(CoreLines(stripped));
    hide CoreOf, BareLines, RStrip, Join, TrimLines, Stripped, SplitLines, Clean, Blank, Scan;
    if HasFeatures(left) {
      TrimJoin(EnsureLines(left));
    }
  }

  lemma {:induction false} AddedHolds(
    core: string, before: seq<string>, part: seq<string>, after: seq<string>, left: seq<string>)
    requires left == before + part + after && core == RStrip(Join([FEATURES, HOOK_FEATURE, ""] + left))
    ensures HoldsLines(core, part)
  {
    hide SetsHooks, RStrip, Join, WithoutHooks;
    var added := [FEATURES, HOOK_FEATURE, ""];
    WithoutAppend(added, left);
    WithoutAppend(before + part, after);
    WithoutAppend(before, part);
    assert WithoutHooks(added + left)
        == (WithoutHooks(added) + WithoutHooks(before)) + WithoutHooks(part) + WithoutHooks(after);
  }

  /** Sections that name none of the owner texts, or are no hook sections, stay unless they are event headers. */
  lemma {:induction false} UserSectionStays(groups: seq<seq<string>>, i: nat)
    requires i < |groups| && (!HookSection(groups[i]) || !NamesOwner(groups[i]))
    requires Head(groups[i]) != "[[hooks.PostToolUse]]" && Head(groups[i]) != "[[hooks.Stop]]"
    ensures !Goes(groups, i)
  {
    hide NamesOwner, HookSection, Head, Mentions;
  }

  // ----- ours are gone from the merged text -----

  lemma {:induction false} NoneManagedNoneOurs(lines: seq<string>)
    requires forall k :: 0 <= k < |lines| ==> BreakFree(lines[k])
    requires forall i :: 0 <= i < |LineSections(lines)| ==> !IsManagedSection(LineSections(lines)[i])
    ensures forall g :: 0 <= g < |Groups(lines)| ==> !Ours(Groups(lines)[g])
  {
    hide Ours, IsManagedSection, BreakFree, Join;
    GroupsBreakFree(lines);
    var groups := Groups(lines);
    hide Groups;
    forall g | 0 <= g < |groups| ensures !Ours(groups[g]) {
      assert LineSections(lines)[g] == Join(groups[g]);
      OursIs(groups[g]);
    }
  }

  lemma {:induction false} FeaturesIsNoHook(line: string)
    requires line == FEATURES
    ensures !(POST_PREFIX <= line) && !(STOP_PREFIX <= line)
  {
    assert line[1] == 'f' && POST_PREFIX[1] == '[' && STOP_PREFIX[1] == '[';
  }

  lemma {:induction false} FirstNotManaged(sections: seq<string>)
    requires sections != [] && FirstLine(sections[0]) == FEATURES
    ensures !IsManagedSection(sections[0])
  {
    FeaturesIsNoHook(FirstLine(sections[0]));
    hide FirstLine, Contains, FEATURES, POST_PREFIX, STOP_PREFIX, OWNER_NAME, OLD_POST_SCRIPT, OLD_STOP_SCRIPT;
  }

  /** A features section put in front changes the first section at most. */
  lemma {:induction false} AddedSections(left: seq<string>)
    ensures var b := LineSections([FEATURES, HOOK_FEATURE, ""] + left);
            && b != [] && forall i :: 0 < i < |b| ==> b[i] in LineSections(left)
  {
    AddedHeader();
    hide Opens, Groups, Join, FEATURES, HOOK_FEATURE;
    var added := [FEATURES, HOOK_FEATURE, ""];
    if left == [] || Opens(left[0]) {
      GroupsCut(added, left);
      JoinAllCons(added, Groups(left));
    } else {
      var n := CutAt(left, 1);
      assert left == left[..n] + left[n..] && added + left == (added + left[..n]) + left[n..];
      GroupsCut(left[..n], left[n..]);
      GroupsCut(added + left[..n], left[n..]);
      JoinAllCons(left[..n], Groups(left[n..]));
      JoinAllCons(added + left[..n], Groups(left[n..]));
    }
  }

  lemma {:induction false} StartsWithFeatures(lines: seq<string>)
    requires lines != [] && lines[0] == FEATURES && forall k :: 0 <= k < |lines| ==> BreakFree(lines[k])
    ensures LineSections(lines) != [] && FirstLine(LineSections(lines)[0]) == FEATURES
  {
    FeaturesLine();
    GroupsBreakFree(lines);
    hide BreakFree, Blank, LStrip, RStrip, Join, FirstLine, Opens;
    var groups := Groups(lines);
    FirstLineOf(groups[0]);
  }

  lemma {:induction false} CoreNotManaged(stripped: string)
    ensures var sections := LineSections(CoreLines(stripped));
            forall i :: 0 <= i < |sections| ==> !IsManagedSection(sections[i])
  {
    CoreStripped(stripped);
    BareIs(stripped);
    var left, lines := BareLines(stripped), CoreLines(stripped);
    assert forall k :: 0 <= k < |lines| ==> BreakFree(lines[k]);
    hide IsManagedSection, Blank, RStrip, FirstLine, Dropped, TrimLines, Join, LineSections, BareLines, Stripped, Scan;
    hide EnsureLines;
    BareQuiet(stripped);
    if left == [] {
      NoGroups();
      StartsWithFeatures(lines);
      FirstNotManaged(LineSections(lines));
      AloneSection();
      OneSectionOnly(lines);
    } else if HasFeatures(left) {
      EnsureKeepsKinds(left);
      KindsNotManaged(LineSections(left), LineSections(lines));
    } else {
      StartsWithFeatures(lines);
      FirstNotManaged(LineSections(lines));
      AddedSections(left);
    }
  }

  lemma {:induction false} OneSectionOnly(lines: seq<string>)
    requires Groups(lines) == [lines]
    ensures |LineSections(lines)| == 1
  {
  }

  lemma {:induction false} KindsNotManaged(a: seq<string>, b: seq<string>)
    requires SameKinds(a, b) && Quiet(a)
    ensures forall i :: 0 <= i < |b| ==> !IsManagedSection(b[i])
  {
    hide IsManagedSection, Blank, RStrip, FirstLine, Contains, Dropped;
    forall i | 0 <= i < |b| ensures !IsManagedSection(b[i]) {
      assert SameKind(a[i], b[i]);
    }
  }

  /** The text in front of the block holds none of our sections any more. */
  lemma {:induction false} MergeDropsOurs(existing: string, block: string, marker: string)
    requires Merge(existing, block, marker).Ok?
    ensures var core := CoreOf(StripBlock(existing, marker).value);
            && Merge(existing, block, marker).value == core + "\n\n" + block
            && forall g :: 0 <= g < |GroupsOf(core)| ==> !Ours(GroupsOf(core)[g])
  {
    var stripped := StripBlock(existing, marker).value;
    CoreIs(stripped);
    CoreStripped(stripped);
    StrippedText(CoreLines(stripped));
    var lines := CoreLines(stripped);
    assert forall k :: 0 <= k < |lines| ==> BreakFree(lines[k]);
    hide CoreOf, CoreLines, Ours, IsManagedSection, LineSections, Groups, SplitLines, Join, Stripped, BreakFree;
    CoreNotManaged(stripped);
    NoneManagedNoneOurs(lines);
  }
}
