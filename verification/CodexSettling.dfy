/**
 What enabling the hooks feature does to the sections of a text: none of them changes its kind,
 and the only new work for the next pass is an end that stands exposed where hooks lines went.
 */
module CodexSettling {
  import opened Wrappers
  import opened Text
  import opened CodexConfig
  import opened CodexLines
  import opened CodexSections
  import opened CodexFeatures
  import opened CodexMerge
  import opened CodexStability

  // ----- the lines left after the drop stage -----

  /** The sections of lines that form a text. */
  function LineSections(lines: seq<string>): seq<string> {
    JoinAll(Groups(lines))
  }

  lemma {:induction false} BareSections(stripped: string)
    ensures var bare, kept := BareLines(stripped), KeptFrom(Sections(RStrip(stripped)), 0);
            && Join(bare) == StripPrevious(RStrip(stripped)) && LineSections(bare) == kept
            && (forall j :: 0 <= j < |kept| ==>
                !IsManagedSection(kept[j]) && !Blank(kept[j]) && RStrip(kept[j]) == kept[j])
            && (forall j :: 0 <= j < |kept| && Dropped(kept, j) ==> FirstLine(kept[j]) == STOP_PARENT)
  {
    hide RStrip, KeptFrom, SplitLines, Groups, TrimLines, Join, Dropped, StripPrevious, Blank;
    hide IsManagedSection, FirstLine, KeptLines;
    var text := RStrip(stripped);
    KeptEnd(Sections(text), Groups(SplitLines(text)), 0);
    assert BareLines(stripped) == RemainingLines(text);
    StripPreviousLines(text);
    BareIs(stripped);
    SectionsOfLines(text);
    SectionsKept(text);
    KeptPlain(Sections(text), 0);
    DroppedIsStop(Sections(text), 0);
  }

  lemma {:induction false} SectionsOfLines(text: string)
    ensures Sections(StripPrevious(text)) == LineSections(RemainingLines(text))
  {
    StripPreviousLines(text);
    hide StripPrevious, RemainingLines, Groups, TextLines;
  }

  predicate AllSettled(sections: seq<string>) {
    forall i :: 0 <= i < |sections| ==> SettledAt(sections, i)
  }

  lemma {:induction false} SettledLines(lines: seq<string>)
    requires Stripped(lines)
    ensures Settled(Join(lines)) <==> AllSettled(LineSections(lines))
  {
    StrippedText(lines);
    hide SettledAt, Groups, Join, Stripped, SplitLines;
    assert Sections(Join(lines)) == LineSections(lines);
  }

  // ----- changing lines inside one section -----

  /**
   Replacing lines that open nothing changes one section only, and not its beginning.
   */
  lemma {:induction false} GroupsEdit(front: seq<string>, was: seq<string>, now: seq<string>, rest: seq<string>)
    returns (before: seq<seq<string>>, head: seq<string>, tail: seq<string>, after: seq<seq<string>>)
    requires exists i :: 0 <= i < |front| && !Blank(front[i])
    requires forall k :: 0 <= k < |was| ==> !Opens(was[k])
    requires forall k :: 0 <= k < |now| ==> !Opens(now[k])
    ensures Groups(front + was + rest) == before + [head + was + tail] + after
    ensures Groups(front + now + rest) == before + [head + now + tail] + after
    ensures exists i :: 0 <= i < |head| && !Blank(head[i])
    ensures tail <= rest && (tail == [] ==> rest == [] || Opens(rest[0]))
    decreases |front|
  {
    hide Opens, Blank, Groups;
    var n := CutAt(front, 1);
    if n < |front| {
      OpensIsNotBlank(front[n]);
      assert front[n..][0] == front[n];
      before, head, tail, after := GroupsEdit(front[n..], was, now, rest);
      FirstGroup(front, n, was, rest);
      FirstGroup(front, n, now, rest);
      assert [front[..n]] + (before + [head + was + tail] + after)
          == ([front[..n]] + before) + [head + was + tail] + after;
      assert [front[..n]] + (before + [head + now + tail] + after)
          == ([front[..n]] + before) + [head + now + tail] + after;
      before := [front[..n]] + before;
    } else {
      var t := OpeningIn(rest);
      before, head, tail, after := [], front, rest[..t], Groups(rest[t..]);
      LastGroup(front, was, rest, t);
      LastGroup(front, now, rest, t);
    }
  }

  lemma {:induction false} OpensIsNotBlank(line: string)
    requires Opens(line)
    ensures !Blank(line)
  {
    PrintableIsNoSpace('[');
    hide IsSpace;
    assert !IsSpace(line[0]);
  }

  function OpeningIn(lines: seq<string>): (n: nat)
    ensures n <= |lines| && (n < |lines| ==> Opens(lines[n])) && forall k :: 0 <= k < n ==> !Opens(lines[k])
  {
    if lines == [] || Opens(lines[0]) then 0 else CutAt(lines, 1)
  }

  lemma {:induction false} FirstGroup(front: seq<string>, n: nat, middle: seq<string>, rest: seq<string>)
    requires 0 < n < |front| && Opens(front[n]) && forall k :: 1 <= k < n ==> !Opens(front[k])
    ensures Groups(front + middle + rest) == [front[..n]] + Groups(front[n..] + middle + rest)
  {
    hide Opens, Groups;
    var next := front[n..] + middle + rest;
    assert front[..n] + next == front + middle + rest && next[0] == front[n];
    GroupsCut(front[..n], next);
  }

  lemma {:induction false} LastGroup(front: seq<string>, middle: seq<string>, rest: seq<string>, t: nat)
    requires front != [] && forall k :: 1 <= k < |front| ==> !Opens(front[k])
    requires forall k :: 0 <= k < |middle| ==> !Opens(middle[k])
    requires t <= |rest| && (t < |rest| ==> Opens(rest[t])) && forall k :: 0 <= k < t ==> !Opens(rest[k])
    ensures Groups(front + middle + rest) == [] + [front + middle + rest[..t]] + Groups(rest[t..])
  {
    hide Opens, Groups;
    var section := front + middle + rest[..t];
    assert section + rest[t..] == front + middle + rest;
    GroupsCut(section, rest[t..]);
  }

  // ----- what the change does to the section -----

  lemma {:induction false} FirstLineHead(head: seq<string>, a: seq<string>, b: seq<string>)
    requires exists i :: 0 <= i < |head| && !Blank(head[i])
    requires forall k :: 0 <= k < |head + a| ==> BreakFree((head + a)[k])
    requires forall k :: 0 <= k < |head + b| ==> BreakFree((head + b)[k])
    ensures FirstLine(Join(head + a)) == FirstLine(Join(head + b))
    ensures !Blank(Join(head + a))
    decreases |head|
  {
    hide Blank, BreakFree, FirstLine, Join, LStrip;
    FirstLineOf(head + a);
    FirstLineOf(head + b);
    if Blank(head[0]) {
      assert (head + a)[1..] == head[1..] + a && (head + b)[1..] == head[1..] + b;
      assert forall k :: 0 <= k < |head[1..] + a| ==> (head[1..] + a)[k] == (head + a)[k + 1];
      assert forall k :: 0 <= k < |head[1..] + b| ==> (head[1..] + b)[k] == (head + b)[k + 1];
      var i :| 0 <= i < |head| && !Blank(head[i]);
      assert head[1..][i - 1] == head[i];
      FirstLineHead(head[1..], a, b);
    }
  }

  /** A text without line breaks in the changed section comes from an unchanged line of it. */
  lemma {:induction false} ContainsKept(
    head: seq<string>, was: seq<string>, now: seq<string>, tail: seq<string>, text: string)
    requires text != "" && BreakFree(text) && forall k :: 0 <= k < |now| ==> !Contains(now[k], text)
    ensures Contains(Join(head + now + tail), text) ==> Contains(Join(head + was + tail), text)
  {
    hide Contains, BreakFree, Join;
    ContainsJoin(head + now + tail, text);
    ContainsJoin(head + was + tail, text);
    if i :| 0 <= i < |head + now + tail| && Contains((head + now + tail)[i], text) {
      if i < |head| {
        assert (head + was + tail)[i] == head[i];
      } else if |head| + |now| <= i {
        assert (head + was + tail)[i - |now| + |was|] == tail[i - |head| - |now|];
      }
    }
  }

  // ----- the kind of a section -----

  /**
   What decides whether a section is dropped: `b` has the same kind of first line as `a`, is no
   more managed, and is not empty unless `a` is.
   */
  predicate SameKind(a: string, b: string) {
    && (FirstLine(b) == POST_PARENT <==> FirstLine(a) == POST_PARENT)
    && (FirstLine(b) == STOP_PARENT <==> FirstLine(a) == STOP_PARENT)
    && (POST_CHILD <= FirstLine(b) <==> POST_CHILD <= FirstLine(a))
    && (STOP_CHILD <= FirstLine(b) <==> STOP_CHILD <= FirstLine(a))
    && (IsManagedSection(b) ==> IsManagedSection(a))
    && (Contains(b, OLD_MATCHER) ==> Contains(a, OLD_MATCHER))
    && (Blank(b) ==> Blank(a))
  }

  ghost predicate SameKinds(a: seq<string>, b: seq<string>) {
    |a| == |b| && forall i :: 0 <= i < |a| ==> SameKind(a[i], b[i])
  }

  lemma {:induction false} KindsOnward(a: seq<string>, b: seq<string>, c: seq<string>)
    requires SameKinds(a, b) && SameKinds(b, c)
    ensures SameKinds(a, c)
  {
    hide FirstLine, IsManagedSection, Contains, Blank, POST_PARENT, STOP_PARENT, POST_CHILD, STOP_CHILD, OLD_MATCHER;
    forall i | 0 <= i < |a| ensures SameKind(a[i], c[i]) {
      assert SameKind(a[i], b[i]) && SameKind(b[i], c[i]);
    }
  }

  lemma {:induction false} KindsBut(before: seq<string>, a: string, b: string, after: seq<string>)
    requires SameKind(a, b)
    ensures SameKinds(before + [a] + after, before + [b] + after)
  {
    hide FirstLine, IsManagedSection, Contains, Blank;
  }

  ghost predicate Quiet(sections: seq<string>) {
    && (forall j :: 0 <= j < |sections| ==>
        !IsManagedSection(sections[j]) && !Blank(sections[j]) && RStrip(sections[j]) == sections[j])
    && (forall j :: 0 <= j < |sections| && Dropped(sections, j) ==> FirstLine(sections[j]) == STOP_PARENT)
  }

  lemma {:induction false} OrphanKind(a: string, b: string, nextA: string, nextB: string)
    requires SameKind(a, b) && SameKind(nextA, nextB)
    requires IsOrphan(a, nextA) ==> FirstLine(a) == STOP_PARENT
    ensures IsOrphan(b, nextB) <==> IsOrphan(a, nextA)
  {
    HeadersDiffer();
    hide FirstLine, IsManagedSection, Contains, Blank, POST_PARENT, STOP_PARENT, POST_CHILD, STOP_CHILD, OLD_MATCHER;
  }

  lemma {:induction false} HeadersDiffer()
    ensures STOP_PARENT != POST_PARENT
  {
  }

  lemma {:induction false} OnlyOrphans(sections: seq<string>, i: nat)
    requires i < |sections| && forall j :: 0 <= j < |sections| ==> !IsManagedSection(sections[j])
    ensures Dropped(sections, i) <==> OrphanAt(sections, i)
  {
    hide IsManagedSection, IsOrphan;
  }

  lemma {:induction false} NextKind(a: seq<string>, b: seq<string>, i: nat)
    requires SameKinds(a, b) && i < |a|
    ensures SameKind(NextSection(a, i), NextSection(b, i))
  {
    hide FirstLine, IsManagedSection, Contains, Blank;
  }

  lemma {:induction false} KindDropped(a: seq<string>, b: seq<string>, i: nat)
    requires SameKinds(a, b) && Quiet(a) && i < |a|
    ensures Dropped(b, i) <==> Dropped(a, i)
    ensures !Blank(b[i])
  {
    hide IsManagedSection, Blank, RStrip, FirstLine, Contains, Dropped, IsOrphan, SameKind;
    forall j | 0 <= j < |b| ensures !IsManagedSection(b[j]) && !Blank(b[j]) {
      KindPlain(a[j], b[j]);
    }
    OnlyOrphans(a, i);
    OnlyOrphans(b, i);
    NextKind(a, b, i);
    OrphanKind(a[i], b[i], NextSection(a, i), NextSection(b, i));
  }

  lemma {:induction false} KindPlain(a: string, b: string)
    requires SameKind(a, b) && !IsManagedSection(a) && !Blank(a)
    ensures !IsManagedSection(b) && !Blank(b)
  {
    hide IsManagedSection, Blank, FirstLine, Contains;
  }

  lemma {:induction false} NothingDropped(sections: seq<string>)
    requires forall j :: 0 <= j < |sections| ==> !Dropped(sections, j)
    ensures !DroppedAny(sections)
  {
    hide Dropped;
  }

  lemma {:induction false} SomethingDropped(sections: seq<string>, j: nat)
    requires j < |sections|
    ensures Dropped(sections, j) ==> DroppedAny(sections)
  {
    hide Dropped;
  }

  /** Sections of the same kinds are settled alike but for their ends. */
  lemma {:induction false} KindsSettled(a: seq<string>, b: seq<string>)
    requires SameKinds(a, b) && Quiet(a)
    ensures AllSettled(b) <==> !DroppedAny(a) && forall i :: 0 <= i < |b| ==> RStrip(b[i]) == b[i]
    ensures forall i :: 0 <= i < |b| ==> !Blank(b[i])
  {
    hide IsManagedSection, Blank, RStrip, FirstLine, Contains, Dropped, SameKind, Quiet;
    forall i | 0 <= i < |a| ensures (Dropped(b, i) <==> Dropped(a, i)) && !Blank(b[i]) {
      KindDropped(a, b, i);
    }
    hide DroppedAny;
    if AllSettled(b) {
      forall j | 0 <= j < |a| ensures !Dropped(a, j) && RStrip(b[j]) == b[j] {
        assert SettledAt(b, j);
      }
      NothingDropped(a);
    } else {
      var j :| 0 <= j < |b| && !SettledAt(b, j);
      assert Dropped(a, j) || RStrip(b[j]) != b[j];
      SomethingDropped(a, j);
    }
  }

  // ----- changing lines keeps the kind -----

  lemma {:induction false} TooLong(line: string, text: string)
    requires |line| < |text|
    ensures !Contains(line, text)
  {
  }

  predicate PlainName(name: string) {
    name != "" && BreakFree(name) && |HOOK_FEATURE| < |name|
  }

  lemma {:induction false} OwnerPlain()
    ensures PlainName(OWNER_NAME)
  {
    PlainText(OWNER_NAME);
  }

  lemma {:induction false} PostScriptPlain()
    ensures PlainName(OLD_POST_SCRIPT)
  {
    PlainText(OLD_POST_SCRIPT);
  }

  lemma {:induction false} StopScriptPlain()
    ensures PlainName(OLD_STOP_SCRIPT)
  {
    PlainText(OLD_STOP_SCRIPT);
  }

  lemma {:induction false} MatcherPlain()
    ensures PlainName(OLD_MATCHER)
  {
    PlainText(OLD_MATCHER);
  }

  lemma {:induction false} NameKept(
    head: seq<string>, was: seq<string>, now: seq<string>, tail: seq<string>, name: string)
    requires PlainName(name) && (now == [] || now == [HOOK_FEATURE])
    ensures Contains(Join(head + now + tail), name) ==> Contains(Join(head + was + tail), name)
  {
    hide BreakFree, Join;
    TooLong(HOOK_FEATURE, name);
    hide Contains;
    ContainsKept(head, was, now, tail, name);
  }

  /** Removing lines or adding a hooks line behind the first line of a section keeps its kind. */
  lemma {:induction false} EditKind(head: seq<string>, was: seq<string>, now: seq<string>, tail: seq<string>)
    requires now == [] || now == [HOOK_FEATURE]
    requires exists i :: 0 <= i < |head| && !Blank(head[i])
    requires forall k :: 0 <= k < |head + (was + tail)| ==> BreakFree((head + (was + tail))[k])
    requires forall k :: 0 <= k < |head + (now + tail)| ==> BreakFree((head + (now + tail))[k])
    ensures SameKind(Join(head + was + tail), Join(head + now + tail))
  {
    OwnerPlain();
    PostScriptPlain();
    StopScriptPlain();
    MatcherPlain();
    hide PlainName, Contains, FirstLine, Join, Blank, BreakFree;
    NameKept(head, was, now, tail, OWNER_NAME);
    NameKept(head, was, now, tail, OLD_POST_SCRIPT);
    NameKept(head, was, now, tail, OLD_STOP_SCRIPT);
    NameKept(head, was, now, tail, OLD_MATCHER);
    hide OWNER_NAME, OLD_POST_SCRIPT, OLD_STOP_SCRIPT, OLD_MATCHER, POST_PARENT, STOP_PARENT, POST_CHILD, STOP_CHILD;
    assert head + was + tail == head + (was + tail) && head + now + tail == head + (now + tail);
    FirstLineHead(head, now + tail, was + tail);
  }

  lemma {:induction false} JoinAllAt(before: seq<seq<string>>, section: seq<string>, after: seq<seq<string>>)
    ensures JoinAll(before + [section] + after) == JoinAll(before) + [Join(section)] + JoinAll(after)
  {
  }


  lemma {:induction false} HookOpensNothing()
    ensures !Opens(HOOK_FEATURE) && BreakFree(HOOK_FEATURE)
  {
    AddedLines();
    hide BreakFree;
  }

  /** One change inside a section keeps the kinds of all sections. */
  lemma {:induction false} EditKinds(front: seq<string>, was: seq<string>, now: seq<string>, rest: seq<string>)
    requires now == [] || now == [HOOK_FEATURE]
    requires exists i :: 0 <= i < |front| && !Blank(front[i])
    requires forall k :: 0 <= k < |was| ==> !Opens(was[k])
    requires forall k :: 0 <= k < |front + was + rest| ==> BreakFree((front + was + rest)[k])
    ensures SameKinds(LineSections(front + was + rest), LineSections(front + now + rest))
  {
    HookOpensNothing();
    hide Opens, Blank, BreakFree, Groups, Join, JoinAll, SameKind, HOOK_FEATURE;
    var before, head, tail, after := GroupsEdit(front, was, now, rest);
    BreakFreeParts(front, was, now, rest, before, head, tail, after);
    EditKind(head, was, now, tail);
    JoinAllAt(before, head + was + tail, after);
    JoinAllAt(before, head + now + tail, after);
    KindsBut(JoinAll(before), Join(head + was + tail), Join(head + now + tail), JoinAll(after));
  }

  lemma {:induction false} BreakFreeParts(
    front: seq<string>, was: seq<string>, now: seq<string>, rest: seq<string>,
    before: seq<seq<string>>, head: seq<string>, tail: seq<string>, after: seq<seq<string>>)
    requires forall k :: 0 <= k < |front + was + rest| ==> BreakFree((front + was + rest)[k])
    requires Groups(front + was + rest) == before + [head + was + tail] + after
    requires forall k :: 0 <= k < |now| ==> BreakFree(now[k])
    ensures forall k :: 0 <= k < |head + (was + tail)| ==> BreakFree((head + (was + tail))[k])
    ensures forall k :: 0 <= k < |head + (now + tail)| ==> BreakFree((head + (now + tail))[k])
  {
    hide BreakFree, Groups;
    GroupsBreakFree(front + was + rest);
    var group := (before + [head + was + tail] + after)[|before|];
    assert group == head + was + tail == head + (was + tail);
    assert forall k :: 0 <= k < |head| ==> group[k] == head[k];
    assert forall k :: 0 <= k < |tail| ==> group[|head| + |was| + k] == tail[k];
  }

  lemma {:induction false} BracketStripped(line: string)
    requires Opens(line)
    ensures Strip(line) != "" ==> Strip(line)[0] == '['
  {
    PrintableIsNoSpace('[');
    hide IsSpace;
    LStripUnique(line, line);
    hide LStrip;
    RStripShape(LStrip(line));
    hide RStrip;
  }

  lemma {:induction false} HooksLineOpensNothing(line: string)
    requires IsHooksLine(line)
    ensures !Opens(line)
  {
    assert HOOK_PREFIX[0] == 'h';
    hide Strip;
    if Opens(line) {
      BracketStripped(line);
    }
  }

  /** Normalising a part of a text keeps the kinds of all its sections. */
  lemma {:induction false} NormalizedKeepsKinds(
    front: seq<string>, region: seq<string>, inserted: bool, rest: seq<string>)
    requires exists i :: 0 <= i < |front| && !Blank(front[i])
    requires forall k :: 0 <= k < |front + region + rest| ==> BreakFree((front + region + rest)[k])
    ensures SameKinds(LineSections(front + region + rest), LineSections(front + Normalized(region, inserted) + rest))
    decreases |region|
  {
    HookOpensNothing();
    hide Opens, Blank, BreakFree, LineSections, SameKinds, IsHooksLine, HOOK_FEATURE;
    var i :| 0 <= i < |front| && !Blank(front[i]);
    if region == [] {
      EditKinds(front, [], [], rest);
      EditKinds(front, [], [HOOK_FEATURE], rest);
    } else {
      var line, later := region[0], region[1..];
      assert region == [line] + later;
      assert front + region + rest == front + [line] + (later + rest);
      if IsHooksLine(line) {
        HooksLineOpensNothing(line);
        var now := if inserted then [] else [HOOK_FEATURE];
        EditKinds(front, [line], now, later + rest);
        assert front + now + (later + rest) == (front + now) + later + rest;
        assert (front + now)[i] == front[i];
        EditBreakFree(front, line, now, later + rest);
        NormalizedKeepsKinds(front + now, later, true, rest);
        assert (front + now) + Normalized(later, true) + rest == front + (now + Normalized(later, true)) + rest;
        KindsOnward(LineSections(front + region + rest), LineSections((front + now) + later + rest),
                    LineSections(front + Normalized(region, inserted) + rest));
      } else {
        assert front + region + rest == (front + [line]) + later + rest;
        assert (front + [line])[i] == front[i];
        NormalizedKeepsKinds(front + [line], later, inserted, rest);
        assert (front + [line]) + Normalized(later, inserted) + rest
            == front + ([line] + Normalized(later, inserted)) + rest;
      }
    }
  }

  lemma {:induction false} EditBreakFree(front: seq<string>, line: string, now: seq<string>, rest: seq<string>)
    requires forall k :: 0 <= k < |front + [line] + rest| ==> BreakFree((front + [line] + rest)[k])
    requires forall k :: 0 <= k < |now| ==> BreakFree(now[k])
    ensures forall k :: 0 <= k < |front + now + rest| ==> BreakFree((front + now + rest)[k])
  {
    hide BreakFree;
    assert forall k :: 0 <= k < |front| ==> (front + [line] + rest)[k] == front[k];
    assert forall k :: 0 <= k < |rest| ==> (front + [line] + rest)[|front| + 1 + k] == rest[k];
  }

  // ----- stripping the end of the enabled text -----

  lemma {:induction false} FirstBefore(first: seq<string>, later: seq<string>, b: seq<string>)
    requires first != [] && forall k :: 0 < k < |first| ==> !Opens(first[k])
    requires (later != [] ==> Opens(later[0])) && (b != [] ==> Opens(b[0]))
    ensures Groups(first + (later + b)) == [first] + Groups(later + b) &&
      Groups(first + later) == [first] + Groups(later)
  {
    hide Opens, Groups;
    GroupsCut(first, later);
    GroupsCut(first, later + b);
  }

  lemma {:induction false} GroupsSplit(a: seq<string>, b: seq<string>)
    requires b != [] ==> Opens(b[0])
    ensures Groups(a + b) == Groups(a) + Groups(b)
  {
    hide *;
    if a == [] {
      NoGroups();
      assert a + b == b && [] + Groups(b) == Groups(b);
    } else {
      var n := CutAt(a, 1);
      var first, later := a[..n], a[n..];
      assert a == first + later && a + b == first + (later + b);
      GroupsSplit(later, b);
      FirstBefore(first, later, b);
      Regroup(first, Groups(later), Groups(b));
    }
  }

  lemma {:induction false} Regroup(first: seq<string>, a: seq<seq<string>>, b: seq<seq<string>>)
    ensures [first] + (a + b) == ([first] + a) + b
  {
  }

  /** Where the last section starts. */
  function LastOpening(lines: seq<string>): (t: nat)
    requires lines != []
    ensures t < |lines| && (t == 0 || Opens(lines[t])) && forall k :: t < k < |lines| ==> !Opens(lines[k])
  {
    var n := |lines| - 1;
    if n == 0 || Opens(lines[n]) then n else LastOpening(lines[..n])
  }

  lemma {:induction false} GroupsOfLast(before: seq<string>, group: seq<string>)
    requires group != [] && (before == [] || Opens(group[0])) && forall k :: 0 < k < |group| ==> !Opens(group[k])
    ensures LineSections(before + group) == LineSections(before) + [Join(group)]
  {
    hide Opens, Join;
    GroupsCut(group, []);
    assert group + [] == group && [group] + Groups([]) == [group];
    if before == [] {
      assert before + group == group;
    } else {
      GroupsSplit(before, group);
    }
  }

  lemma {:induction false} TrimAppend(a: seq<string>, b: seq<string>)
    requires TrimLines(b) != []
    ensures TrimLines(a + b) == a + TrimLines(b)
  {
    hide Blank, RStrip;
    var init, last := b[..|b| - 1], b[|b| - 1];
    assert (a + b)[..|a + b| - 1] == a + init;
    if Blank(last) {
      TrimAppend(a, init);
    }
  }

  lemma {:induction false} PostStripped()
    ensures LStrip(POST_PARENT) == RStrip(POST_PARENT) == POST_PARENT
  {
    PlainText(POST_PARENT);
    hide LStrip, RStrip;
  }

  lemma {:induction false} StopStripped()
    ensures LStrip(STOP_PARENT) == RStrip(STOP_PARENT) == STOP_PARENT
  {
    PlainText(STOP_PARENT);
    hide LStrip, RStrip;
  }

  lemma {:induction false} HeadersStripped()
    ensures LStrip(POST_PARENT) == RStrip(POST_PARENT) == POST_PARENT
    ensures LStrip(STOP_PARENT) == RStrip(STOP_PARENT) == STOP_PARENT
  {
    hide *;
    PostStripped();
    StopStripped();
  }

  /** Stripping the end of a section keeps its kind, unless that makes it a bare parent header. */
  lemma {:induction false} StrippedKind(s: string)
    requires !Blank(s) && Strip(s) != POST_PARENT && Strip(s) != STOP_PARENT
    ensures SameKind(s, RStrip(s))
  {
    HeadersStripped();
    FixedNames();
    hide FirstLine, IsManagedSection, Contains, Blank, RStrip, LStrip, Strip, PlainEnd;
    hide POST_PARENT, STOP_PARENT, POST_CHILD, STOP_CHILD, OLD_MATCHER;
    SectionStripped(s);
    FirstLineStripped(s);
    PlainContains(s, OLD_MATCHER);
  }

  lemma {:induction false} LetterInside(s: string, sub: string, i: nat, k: nat)
    requires k < |sub| && At(s, sub, i)
    ensures sub[k] in s
  {
    assert s[i..i + |sub|][k] == s[i + k];
  }

  lemma {:induction false} LetterMissing(s: string, sub: string, k: nat)
    requires k < |sub| && sub[k] !in s
    ensures !Contains(s, sub)
  {
    hide At;
    forall i | 0 <= i <= |s| ensures !At(s, sub, i) {
      if At(s, sub, i) {
        LetterInside(s, sub, i, k);
      }
    }
  }

  lemma {:induction false} PostParentLetters()
    ensures 'f' !in POST_PARENT && "[" <= POST_PARENT &&
      POST_PARENT[|POST_PARENT| - 1] == ']' && POST_PARENT != FEATURES
  {
    assert |POST_PARENT| != |FEATURES|;
  }

  lemma {:induction false} StopParentLetters()
    ensures 'f' !in STOP_PARENT && "[" <= STOP_PARENT &&
      STOP_PARENT[|STOP_PARENT| - 1] == ']' && STOP_PARENT != FEATURES
  {
    assert |STOP_PARENT| != |FEATURES|;
  }

  lemma {:induction false} NoFeaturesIn(header: string)
    requires header == POST_PARENT || header == STOP_PARENT
    ensures !Contains(header, FEATURES) && IsHeader(header) && Strip(header) == header
  {
    HeadersStripped();
    PostParentLetters();
    StopParentLetters();
    assert FEATURES[1] == 'f';
    hide LStrip, RStrip, Contains, POST_PARENT, STOP_PARENT;
    LetterMissing(header, FEATURES, 1);
  }

  lemma {:induction false} FeaturesInside(group: seq<string>, k: nat)
    requires k < |group| && IsFeatures(group[k])
    ensures Contains(Strip(Join(group)), FEATURES)
  {
    PlainText(FEATURES);
    PrintableIsNoSpace('[');
    PrintableIsNoSpace(']');
    var name := FEATURES;
    assert name[0] == '[' && name[|name| - 1] == ']';
    assert At(name, name, 0);
    hide BreakFree, Blank, RStrip, LStrip, Strip, Join, IsSpace, At, FEATURES;
    StripPart(group[k], name);
    hide Contains;
    ContainsJoin(group, name);
    ContainsStrip(Join(group), name);
  }

  /** A section that reaches into the features section is more than a bare parent header. */
  lemma {:induction false} LastSectionKind(lines: seq<string>, s: nat, t: nat)
    requires s < |lines| && IsFeatures(lines[s]) && forall k :: s < k < |lines| ==> !IsHeader(lines[k])
    requires t < |lines| && (t > s ==> Opens(lines[t]))
    requires forall k :: 0 <= k < |lines| ==> BreakFree(lines[k])
    ensures Strip(Join(lines[t..])) != POST_PARENT && Strip(Join(lines[t..])) != STOP_PARENT
  {
    NoFeaturesIn(POST_PARENT);
    NoFeaturesIn(STOP_PARENT);
    hide IsFeatures, IsHeader, Opens, BreakFree, Strip, Join, Contains, POST_PARENT, STOP_PARENT, FEATURES;
    var group := lines[t..];
    if t <= s {
      assert group[s - t] == lines[s];
      FeaturesInside(group, s - t);
    } else if Strip(Join(group)) == POST_PARENT || Strip(Join(group)) == STOP_PARENT {
      LoneHeaderLine(group);
    }
  }

  lemma {:induction false} LoneHeaderLine(group: seq<string>)
    requires group != [] && Opens(group[0]) && forall k :: 0 <= k < |group| ==> BreakFree(group[k])
    requires Strip(Join(group)) == POST_PARENT || Strip(Join(group)) == STOP_PARENT
    ensures IsHeader(group[0])
  {
    HeadersStripped();
    NoFeaturesIn(Strip(Join(group)));
    OpensIsNotBlank(group[0]);
    hide Opens, BreakFree, Join, Blank, LStrip, RStrip, FirstLine, Contains, POST_PARENT, STOP_PARENT;
    LoneHeader(Join(group));
    FirstLineStripped(Join(group));
    FirstLineOf(group);
    assert Strip(group[0]) == Strip(Join(group));
  }

  lemma {:induction false} TrimLastGroup(lines: seq<string>, t: nat)
    requires t < |lines| && (t == 0 || Opens(lines[t])) && forall k :: t < k < |lines| ==> !Opens(lines[k])
    requires !Blank(Join(lines[t..])) && Strip(Join(lines[t..])) != POST_PARENT &&
      Strip(Join(lines[t..])) != STOP_PARENT
    requires forall k :: 0 <= k < |lines| ==> BreakFree(lines[k])
    ensures SameKinds(LineSections(lines), LineSections(TrimLines(lines)))
  {
    hide Opens, Blank, BreakFree, RStrip, LStrip, Strip, Join, TrimLines, LineSections, SameKind;
    var before, group := lines[..t], lines[t..];
    assert lines == before + group;
    TrimmedGroup(group);
    TrimAppend(before, group);
    GroupsOfLast(before, group);
    GroupsOfLast(before, TrimLines(group));
    StrippedKind(Join(group));
    KindsBut(LineSections(before), Join(group), RStrip(Join(group)), []);
    assert LineSections(before) + [Join(group)] + [] == LineSections(lines);
    assert LineSections(before) + [RStrip(Join(group))] + [] == LineSections(TrimLines(lines));
  }

  lemma {:induction false} SomeLine(group: seq<string>, k: nat)
    requires k < |group| && !Blank(group[k]) && forall j :: 0 <= j < |group| ==> BreakFree(group[j])
    ensures !Blank(Join(group))
  {
    hide Blank, BreakFree, Join, FirstLine, LStrip;
    FirstLineOf(group);
    if k > 0 && Blank(group[0]) {
      assert group[1..][k - 1] == group[k];
      SomeLine(group[1..], k - 1);
    }
  }

  /** Stripping the end of a text whose features section reaches its end keeps the kinds. */
  lemma {:induction false} TrimKeepsKinds(lines: seq<string>, s: nat)
    requires s < |lines| && IsFeatures(lines[s]) && forall k :: s < k < |lines| ==> !IsHeader(lines[k])
    requires forall k :: 0 <= k < |lines| ==> BreakFree(lines[k])
    ensures SameKinds(LineSections(lines), LineSections(TrimLines(lines)))
  {
    LineKinds(lines[s]);
    hide Opens, Blank, BreakFree, Strip, Join, TrimLines, LineSections, SameKinds, IsFeatures, IsHeader, LastOpening;
    var t := LastOpening(lines);
    var group := lines[t..];
    LastSectionKind(lines, s, t);
    if t <= s {
      assert group[s - t] == lines[s];
      SomeLine(group, s - t);
    } else {
      OpensIsNotBlank(lines[t]);
      SomeLine(group, 0);
    }
    TrimLastGroup(lines, t);
  }
}
