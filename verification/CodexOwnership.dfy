/**
 Which sections the merge takes for its own, said by their lines and by literal texts, and what it
 therefore keeps of a user's configuration.
 */
module CodexOwnership {
  import opened Wrappers
  import opened Text
  import opened CodexConfig
  import opened CodexLines
  import opened CodexSections
  import opened CodexFeatures
  import opened CodexMerge
  import opened CodexStability
  import opened CodexSettling
  import opened CodexExposed
  import opened CodexIdempotence

  // ----- the lines of a section -----

  /** The first line that is not blank, without its indentation. */
  function Head(lines: seq<string>): string {
    if lines == [] then "" else if Blank(lines[0]) then Head(lines[1..]) else LStrip(lines[0])
  }

  predicate Mentions(lines: seq<string>, text: string) {
    exists k :: 0 <= k < |lines| && Contains(lines[k], text)
  }

  predicate HookSection(lines: seq<string>) {
    "[[hooks.PostToolUse" <= Head(lines) || "[[hooks.Stop" <= Head(lines)
  }

  predicate NamesOwner(lines: seq<string>) {
    || Mentions(lines, "Agent Maintainer")
    || Mentions(lines, ".codex/hooks/post_edit_fast_gate.py")
    || Mentions(lines, ".codex/hooks/stop_full_verify.py")
  }

  /** A hook section that names the maintainer or one of its scripts. */
  predicate Ours(lines: seq<string>) {
    HookSection(lines) && NamesOwner(lines)
  }

  /** The two headers of hook events, with the headers of their hooks. */
  predicate HeadsHooksOf(head: string, child: string) {
    || (head == "[[hooks.PostToolUse]]" && "[[hooks.PostToolUse.hooks" <= child)
    || (head == "[[hooks.Stop]]" && "[[hooks.Stop.hooks" <= child)
  }

  function NextHead(groups: seq<seq<string>>, i: nat): string {
    if i + 1 < |groups| then Head(groups[i + 1]) else ""
  }

  /**
   Section `i` goes: it is one of ours, or the event header of one of ours, or the header of an event
   whose hooks are missing, where a PostToolUse header must also set our matcher.
   */
  predicate Goes(groups: seq<seq<string>>, i: nat)
    requires i < |groups|
  {
    || Ours(groups[i])
    || (i + 1 < |groups| && Ours(groups[i + 1]) && HeadsHooksOf(Head(groups[i]), Head(groups[i + 1])))
    || (Head(groups[i]) == "[[hooks.PostToolUse]]" && Mentions(groups[i], "matcher = \"apply_patch|Edit|Write\"")
        && !("[[hooks.PostToolUse.hooks" <= NextHead(groups, i)))
    || (Head(groups[i]) == "[[hooks.Stop]]" && !("[[hooks.Stop.hooks" <= NextHead(groups, i)))
  }

  lemma {:induction false} HeadIs(group: seq<string>)
    requires forall k :: 0 <= k < |group| ==> BreakFree(group[k])
    ensures FirstLine(Join(group)) == Head(group)
    decreases |group|
  {
    hide Blank, LStrip, BreakFree, FirstLine, Join;
    if group == [] {
      EmptyFirstLine();
      assert Join([]) == "" by { JoinNothing(); }
    } else {
      FirstLineOf(group);
      if Blank(group[0]) {
        if |group| > 1 {
          HeadIs(group[1..]);
        } else {
          JoinOne(group[0]);
          BlankFirstLine(Join(group));
          assert group == [group[0]] && Head(group[1..]) == "";
        }
      }
    }
  }

  lemma {:induction false} JoinNothing()
    ensures Join([]) == ""
  {
  }

  lemma {:induction false} JoinOne(line: string)
    ensures Join([line]) == line
  {
  }

  lemma {:induction false} MentionsIs(group: seq<string>, text: string)
    requires text != "" && BreakFree(text)
    ensures Contains(Join(group), text) <==> Mentions(group, text)
  {
    hide Contains, BreakFree;
    ContainsJoin(group, text);
  }

  lemma {:induction false} OursIs(group: seq<string>)
    requires forall k :: 0 <= k < |group| ==> BreakFree(group[k])
    ensures IsManagedSection(Join(group)) <==> Ours(group)
  {
    OwnerPlain();
    PostScriptPlain();
    StopScriptPlain();
    hide Mentions, Contains, BreakFree, FirstLine, Join, Head;
    HeadIs(group);
    MentionsIs(group, OWNER_NAME);
    MentionsIs(group, OLD_POST_SCRIPT);
    MentionsIs(group, OLD_STOP_SCRIPT);
  }

  /** The drop stage drops exactly the sections that go. */
  lemma {:induction false} DroppedIffGoes(sections: seq<string>, groups: seq<seq<string>>, i: nat)
    requires sections == JoinAll(groups) && i < |groups|
    requires forall g, k :: 0 <= g < |groups| && 0 <= k < |groups[g]| ==> BreakFree(groups[g][k])
    ensures Dropped(sections, i) <==> Goes(groups, i)
  {
    MatcherPlain();
    HeadersDiffer();
    EmptyFirstLine();
    hide Mentions, Contains, BreakFree, FirstLine, Join, Head, Ours, IsManagedSection, JoinAll;
    HeadIs(groups[i]);
    OursIs(groups[i]);
    MentionsIs(groups[i], OLD_MATCHER);
    if i + 1 < |groups| {
      HeadIs(groups[i + 1]);
      OursIs(groups[i + 1]);
    }
  }

  // ----- what survives the drop stage -----

  function GroupsOf(content: string): seq<seq<string>> {
    Groups(SplitLines(content))
  }

  /** The lines of a section without its blank end. */
  function Ended(group: seq<string>): seq<string> {
    SplitLines(RStrip(Join(group)))
  }

  /** The lines of the sections from `i` on that do not go. */
  function Surviving(groups: seq<seq<string>>, i: nat): seq<string>
    decreases |groups| - i
  {
    if i >= |groups| then []
    else (if Goes(groups, i) then [] else Ended(groups[i])) + Surviving(groups, i + 1)
  }

  lemma {:induction false} LeftSurvive(sections: seq<string>, groups: seq<seq<string>>, i: nat)
    requires sections == JoinAll(groups)
    requires forall g, k :: 0 <= g < |groups| && 0 <= k < |groups[g]| ==> BreakFree(groups[g][k])
    ensures LinesLeft(sections, i) == Surviving(groups, i)
    decreases |groups| - i
  {
    hide Goes, Dropped, RStrip, SplitLines, BreakFree, Join;
    if i < |groups| {
      DroppedIffGoes(sections, groups, i);
      LeftSurvive(sections, groups, i + 1);
    }
  }

  /** Dropping old hook sections leaves exactly the lines of the sections that do not go. */
  lemma {:induction false} StripPreviousLeaves(content: string)
    ensures StripPrevious(content) == Join(Surviving(GroupsOf(content), 0))
    ensures SplitLines(StripPrevious(content)) == Surviving(GroupsOf(content), 0)
  {
    hide Groups, SplitLines, StripPrevious, KeptLines, LinesLeft, Surviving, BreakFree, Join, TextLines;
    StripPreviousLines(content);
    GroupsBreakFree(SplitLines(content));
    KeptAreLeft(Sections(content), GroupsOf(content), 0);
    LeftSurvive(Sections(content), GroupsOf(content), 0);
  }

  lemma {:induction false} KeptIsThere(sections: seq<string>, i: nat, j: nat)
    requires i <= j < |sections| && !Dropped(sections, j) && !Blank(sections[j])
    ensures RStrip(sections[j]) in KeptFrom(sections, i)
    decreases |sections| - i
  {
    hide Dropped, Blank, RStrip;
    if i < j {
      KeptIsThere(sections, i + 1, j);
    }
  }

  /** A section that does not go and is not blank is a section of the result, with its end stripped. */
  lemma {:induction false} Survives(content: string, i: nat)
    requires i < |GroupsOf(content)| && !Goes(GroupsOf(content), i) && !Blank(Join(GroupsOf(content)[i]))
    ensures RStrip(Join(GroupsOf(content)[i])) in Sections(StripPrevious(content))
  {
    hide Goes, Dropped, Blank, RStrip, Groups, SplitLines, StripPrevious, KeptFrom, BreakFree, Join;
    GroupsBreakFree(SplitLines(content));
    DroppedIffGoes(Sections(content), GroupsOf(content), i);
    SectionsKept(content);
    KeptIsThere(Sections(content), 0, i);
  }

  /**
   A user's section survives: any section that is not blank, is no event header, and either is no
   PostToolUse or Stop section or holds none of the three owner texts.
   */
  lemma {:induction false} UserSectionSurvives(content: string, i: nat)
    requires i < |GroupsOf(content)| && !Blank(Join(GroupsOf(content)[i]))
    requires !HookSection(GroupsOf(content)[i]) || !NamesOwner(GroupsOf(content)[i])
    requires Head(GroupsOf(content)[i]) != "[[hooks.PostToolUse]]" && Head(GroupsOf(content)[i]) != "[[hooks.Stop]]"
    ensures RStrip(Join(GroupsOf(content)[i])) in Sections(StripPrevious(content))
  {
    hide NamesOwner, HookSection, Blank, Head, RStrip, Sections, StripPrevious, Groups, Join, SplitLines;
    Survives(content, i);
  }

  /** When an event header goes: with its hooks, for what it says itself, or as an orphan. */
  lemma {:induction false} EventHeaderGoesIff(groups: seq<seq<string>>, i: nat)
    requires i < |groups|
    ensures Head(groups[i]) == "[[hooks.PostToolUse]]" ==>
              (Goes(groups, i) <==>
                 || NamesOwner(groups[i])
                 || (i + 1 < |groups| && NamesOwner(groups[i + 1])
                     && "[[hooks.PostToolUse.hooks" <= Head(groups[i + 1]))
                 || (Mentions(groups[i], "matcher = \"apply_patch|Edit|Write\"")
                     && (i + 1 == |groups| || !("[[hooks.PostToolUse.hooks" <= Head(groups[i + 1])))))
    ensures Head(groups[i]) == "[[hooks.Stop]]" ==>
              (Goes(groups, i) <==>
                 || NamesOwner(groups[i])
                 || (i + 1 < |groups| && "[[hooks.Stop.hooks" <= Head(groups[i + 1]) && NamesOwner(groups[i + 1]))
                 || i + 1 == |groups| || !("[[hooks.Stop.hooks" <= Head(groups[i + 1])))
  {
    HeadersDiffer();
    FixedHeads();
    hide NamesOwner, Mentions, Head;
  }

  lemma {:induction false} FixedHeads()
    ensures "[[hooks.PostToolUse" <= "[[hooks.PostToolUse]]" && "[[hooks.Stop" <= "[[hooks.Stop]]"
    ensures "[[hooks.PostToolUse" <= "[[hooks.PostToolUse.hooks" && "[[hooks.Stop" <= "[[hooks.Stop.hooks"
  {
  }

  /** None of our sections survives. */
  lemma {:induction false} OursNeverSurvives(content: string)
    ensures forall g :: 0 <= g < |GroupsOf(StripPrevious(content))| ==> !Ours(GroupsOf(StripPrevious(content))[g])
  {
    hide Ours, IsManagedSection, Groups, SplitLines, StripPrevious, KeptFrom, BreakFree, Join, Blank, RStrip;
    var kept := StripPrevious(content);
    SectionsKept(content);
    KeptPlain(Sections(content), 0);
    GroupsBreakFree(SplitLines(kept));
    forall g | 0 <= g < |GroupsOf(kept)| ensures !Ours(GroupsOf(kept)[g]) {
      assert Sections(kept)[g] == Join(GroupsOf(kept)[g]);
      OursIs(GroupsOf(kept)[g]);
    }
  }

  // ----- the fenced block -----

  /** The first occurrence of a text at or after a position. */
  predicate FirstFrom(s: string, sub: string, from: nat, p: nat) {
    from <= p && OccursAt(s, sub, p) && forall i: nat :: from <= i < p ==> !OccursAt(s, sub, i)
  }

  ghost predicate Occurs(s: string, sub: string) {
    exists i: nat :: OccursAt(s, sub, i)
  }

  predicate OccursAt(s: string, sub: string, i: nat) {
    i + |sub| <= |s| && s[i..i + |sub|] == sub
  }

  /** One block is cut out: from the first start marker through the first end marker that follows. */
  ghost predicate CutsTo(was: string, now: string, marker: string) {
    exists p: nat, q: nat :: BlockAt(was, marker, p, q) && now == was[..p] + was[q + |"# <<< " + marker + " <<<"|..]
  }

  predicate BlockAt(s: string, marker: string, p: nat, q: nat)
    ensures BlockAt(s, marker, p, q) ==> p <= |s| && q + |"# <<< " + marker + " <<<"| <= |s|
  {
    FirstFrom(s, "# >>> " + marker + " >>>", 0, p) && FirstFrom(s, "# <<< " + marker + " <<<", p, q)
  }

  /** Both markers are there. */
  ghost predicate Fenced(s: string, marker: string) {
    Occurs(s, "# >>> " + marker + " >>>") && Occurs(s, "# <<< " + marker + " <<<")
  }

  lemma {:induction false} OccursIff(s: string, sub: string)
    ensures Occurs(s, sub) <==> Contains(s, sub)
  {
    if i: nat :| OccursAt(s, sub, i) {
      assert At(s, sub, i);
    }
    if i :| 0 <= i <= |s| && At(s, sub, i) {
      assert OccursAt(s, sub, i);
    }
  }

  lemma {:induction false} IndexIsFirst(s: string, sub: string, from: nat)
    ensures IndexFrom(s, sub, from).Some? ==> FirstFrom(s, sub, from, IndexFrom(s, sub, from).value)
    ensures IndexFrom(s, sub, from).None? ==> forall p: nat :: !FirstFrom(s, sub, from, p)
    ensures forall p: nat :: FirstFrom(s, sub, from, p) ==> IndexFrom(s, sub, from) == Some(p)
  {
    var r := IndexFrom(s, sub, from);
    forall i: nat ensures OccursAt(s, sub, i) <==> At(s, sub, i) {
    }
    assert forall i: nat :: OccursAt(s, sub, i) ==> i <= |s|;
    hide OccursAt, At;
  }

  lemma {:induction false} CutIs(content: string, marker: string)
    ensures CutOnce(content, marker).Whole? <==> !Fenced(content, marker)
    ensures CutOnce(content, marker).Unmatched? ==> forall p: nat, q: nat :: !BlockAt(content, marker, p, q)
    ensures CutOnce(content, marker).Shorter? ==> CutsTo(content, CutOnce(content, marker).rest, marker)
  {
    var start, end := "# >>> " + marker + " >>>", "# <<< " + marker + " <<<";
    assert StartMarker(marker) == start && EndMarker(marker) == end;
    OccursIff(content, start);
    OccursIff(content, end);
    hide Occurs;
    if Contains(content, start) && Contains(content, end) {
      IndexIsFirst(content, start, 0);
      var p := IndexFrom(content, start, 0).value;
      IndexIsFirst(content, end, p);
      hide Contains, At, FirstFrom;
      forall p2: nat | FirstFrom(content, start, 0, p2) ensures p2 == p {
        assert IndexFrom(content, start, 0) == Some(p2);
      }
      if IndexFrom(content, end, p).Some? {
        assert BlockAt(content, marker, p, IndexFrom(content, end, p).value);
      }
    }
  }

  /**
   Stripping cuts out one block after the other until a marker is missing, and fails exactly when both
   are there but no end marker follows the first start marker.
   */
  lemma {:induction false} StripCuts(content: string, marker: string) returns (texts: seq<string>)
    ensures texts != [] && texts[0] == content
    ensures forall i :: 0 <= i < |texts| - 1 ==> CutsTo(texts[i], texts[i + 1], marker)
    ensures var last, r := texts[|texts| - 1], StripBlock(content, marker);
            && (r.Ok? <==> !Fenced(last, marker)) && (r.Ok? ==> r.value == last)
            && (r.Err? ==> forall p: nat, q: nat :: !BlockAt(last, marker, p, q))
    decreases |content|
  {
    CutIs(content, marker);
    hide CutsTo, BlockAt, Fenced, CutOnce;
    texts := [content];
    if CutOnce(content, marker).Shorter? {
      var rest := StripCuts(CutOnce(content, marker).rest, marker);
      texts := [content] + rest;
      assert texts[|texts| - 1] == rest[|rest| - 1];
      forall i | 0 <= i < |texts| - 1 ensures CutsTo(texts[i], texts[i + 1], marker) {
        assert i > 0 ==> texts[i] == rest[i - 1] && texts[i + 1] == rest[i];
      }
    }
  }

  /** The text before and the text after a single block are kept as they are. */
  lemma {:induction false} AroundBlockKept(content: string, marker: string, p: nat, q: nat)
    requires BlockAt(content, marker, p, q)
    requires !Fenced(content[..p] + content[q + |"# <<< " + marker + " <<<"|..], marker)
    ensures StripBlock(content, marker) == Ok(content[..p] + content[q + |"# <<< " + marker + " <<<"|..])
  {
    var start, end := "# >>> " + marker + " >>>", "# <<< " + marker + " <<<";
    var rest := content[..p] + content[q + |end|..];
    assert StartMarker(marker) == start && EndMarker(marker) == end;
    IndexIsFirst(content, start, 0);
    IndexIsFirst(content, end, p);
    assert OccursAt(content, start, p) && OccursAt(content, end, q);
    OccursIff(content, start);
    OccursIff(content, end);
    CutIs(rest, marker);
    hide Contains, At, FirstFrom, Occurs, Fenced;
    assert CutOnce(content, marker) == Shorter(rest);
  }
}
