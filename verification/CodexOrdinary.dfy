/**
 A condition on the existing text itself under which the lines left by the drop stage hold at
 most one hooks line in their features section, so that only a Stop header left behind can keep
 the merge from settling.
 */
module CodexOrdinary {
  import opened Wrappers
  import opened Text
  import opened CodexConfig
  import opened CodexLines
  import opened CodexSections
  import opened CodexFeatures
  import opened CodexMerge
  import opened CodexStability
  import opened CodexSettling
  import opened CodexExposed
  import opened CodexIdempotence

  /** At most one line of the features section sets a hooks key. */
  predicate OneHooksLine(lines: seq<string>) {
    var (start, end) := Scan(lines, 0, None);
    start.Some? && start.value <= end && HookCount(lines[start.value..end]) <= 1
  }

  lemma {:induction false} TwoHooks(lines: seq<string>, i: nat, k: nat)
    requires i < k < |lines| && IsHooksLine(lines[i]) && IsHooksLine(lines[k])
    ensures HookCount(lines) >= 2
  {
    hide IsHooksLine, HookCount;
    var first, later := lines[..i + 1], lines[i + 1..];
    assert lines == first + later && first[i] == lines[i] && later[k - i - 1] == lines[k];
    HookCountAppend(first, later);
    HookCounted(first, i);
    HookCounted(later, k - i - 1);
  }

  /** One hooks line covers nothing when it is replaced. */
  lemma {:induction false} OneExposesNothing(lines: seq<string>)
    requires OneHooksLine(lines)
    ensures !Exposed(lines)
  {
    hide Scan, IsHooksLine, IsSpaceEnd, Opens, HookCount;
    var (start, end) := Scan(lines, 0, None);
    if Exposed(lines) {
      var s := start.value;
      var i, k :| s <= i < k <= end && k < |lines| && IsHooksLine(lines[i]) && ExposedAt(lines, i, k);
      var j :| i < j < k && Uncovered(lines, i, j, k);
      assert IsHooksLine(lines[k - 1]);
      var region := lines[s..end];
      assert region[i - s] == lines[i] && region[k - 1 - s] == lines[k - 1];
      TwoHooks(region, i - s, k - 1 - s);
    }
  }

  // ----- the lines up to the first header -----

  function UntilHeader(lines: seq<string>): seq<string> {
    if lines == [] || IsHeader(lines[0]) then [] else [lines[0]] + UntilHeader(lines[1..])
  }

  predicate HasHeader(lines: seq<string>) {
    lines != [] && (IsHeader(lines[0]) || HasHeader(lines[1..]))
  }

  lemma {:induction false} UntilStep(line: string, lines: seq<string>)
    ensures UntilHeader([line] + lines) == if IsHeader(line) then [] else [line] + UntilHeader(lines)
    ensures HasHeader([line] + lines) <==> IsHeader(line) || HasHeader(lines)
  {
    hide IsHeader;
    assert ([line] + lines)[1..] == lines;
  }

  lemma {:induction false} UntilAppend(a: seq<string>, b: seq<string>)
    ensures UntilHeader(a + b) == if HasHeader(a) then UntilHeader(a) else a + UntilHeader(b)
  {
    if a == [] {
      assert a + b == b && [] + UntilHeader(b) == UntilHeader(b);
    } else {
      hide *;
      var line, rest := a[0], a[1..];
      assert a == [line] + rest;
      UntilAppend(rest, b);
      UntilStep(line, rest);
      UntilStep(line, rest + b);
      OneMoreLine(line, rest, b);
      OneMoreLine(line, rest, UntilHeader(b));
    }
  }

  lemma {:induction false} OneMoreLine(line: string, rest: seq<string>, b: seq<string>)
    ensures [line] + (rest + b) == ([line] + rest) + b
  {
  }

  lemma {:induction false} UntilIs(lines: seq<string>, n: nat)
    requires n <= |lines| && (n < |lines| ==> IsHeader(lines[n])) && forall k :: 0 <= k < n ==> !IsHeader(lines[k])
    ensures UntilHeader(lines) == lines[..n]
  {
    hide IsHeader;
    if n > 0 {
      UntilIs(lines[1..], n - 1);
      assert [lines[0]] + lines[1..][..n - 1] == lines[..n];
    }
  }

  lemma {:induction false} NoHeader(lines: seq<string>)
    requires forall k :: 0 <= k < |lines| ==> !IsHeader(lines[k])
    ensures !HasHeader(lines)
  {
    hide IsHeader;
    if lines != [] {
      NoHeader(lines[1..]);
    }
  }

  /** Stripping the end of a section adds no hooks line in front of its first header. */
  lemma {:induction false} UntilTrimmed(t: seq<string>, group: seq<string>)
    requires |t| <= |group|
    requires forall j :: 0 <= j < |t| ==>
      IsHeader(t[j]) == IsHeader(group[j]) && IsHooksLine(t[j]) == IsHooksLine(group[j])
    requires forall j :: |t| <= j < |group| ==> !IsHeader(group[j])
    ensures HasHeader(t) <==> HasHeader(group)
    ensures HookCount(UntilHeader(t)) <= HookCount(UntilHeader(group))
  {
    hide IsHeader, IsHooksLine;
    if t == [] {
      NoHeader(group);
    } else {
      UntilTrimmed(t[1..], group[1..]);
      UntilCons(t);
      UntilCons(group);
    }
  }

  lemma {:induction false} UntilCons(lines: seq<string>)
    requires lines != []
    ensures HookCount(UntilHeader(lines)) ==
            if IsHeader(lines[0]) then 0
            else (if IsHooksLine(lines[0]) then 1 else 0) + HookCount(UntilHeader(lines[1..]))
  {
    hide IsHeader, IsHooksLine;
  }

  lemma {:induction false} TrimmedKinds(group: seq<string>)
    ensures var t := TrimLines(group);
            && |t| <= |group|
            && (forall j :: 0 <= j < |t| ==>
                IsHeader(t[j]) == IsHeader(group[j]) && IsHooksLine(t[j]) == IsHooksLine(group[j])
                                             && IsFeatures(t[j]) == IsFeatures(group[j]))
            && forall j :: |t| <= j < |group| ==> !IsHeader(group[j])
  {
    hide IsHeader, IsHooksLine, IsFeatures, TrimLines, Blank, RStrip;
    TrimShape(group);
    var t := TrimLines(group);
    forall j | 0 <= j < |t|
      ensures IsHeader(t[j]) == IsHeader(group[j]) && IsHooksLine(t[j]) == IsHooksLine(group[j])
      ensures IsFeatures(t[j]) == IsFeatures(group[j])
    {
      TrimmedAt(group, j);
    }
    forall j | |t| <= j < |group| ensures !IsHeader(group[j]) {
      LineKinds(group[j]);
    }
  }

  // ----- what dropping sections does to the features section -----

  predicate Gone(sections: seq<string>, i: nat)
    requires i < |sections|
  {
    Dropped(sections, i) || Blank(sections[i])
  }

  /** A section kept right behind a dropped one starts with a header, a features header included. */
  predicate Bounded(sections: seq<string>, groups: seq<seq<string>>, i: nat)
    requires |sections| == |groups| && 0 < i < |groups|
  {
    Gone(sections, i - 1) && !Gone(sections, i) ==>
      groups[i] != [] && (IsHeader(groups[i][0]) || IsFeatures(groups[i][0]))
  }

  lemma {:induction false} KeptStep(sections: seq<string>, groups: seq<seq<string>>, i: nat)
    requires |sections| == |groups| && i < |groups|
    ensures KeptLines(sections, groups, i)
            == (if Gone(sections, i) then [] else TrimLines(groups[i])) + KeptLines(sections, groups, i + 1)
  {
    hide Dropped, Blank, TrimLines;
  }

  lemma {:induction false} NothingBefore(lines: seq<string>)
    ensures [] + lines == lines
  {
  }

  ghost predicate NoFeatures(lines: seq<string>) {
    forall k :: 0 <= k < |lines| ==> !IsFeatures(lines[k])
  }

  /** Behind a dropped section the next line kept is a header. */
  lemma {:induction false} NextIsHeader(sections: seq<string>, groups: seq<seq<string>>, i: nat)
    requires |sections| == |groups| && i < |groups| && Gone(sections, i)
    requires forall g :: i < g < |groups| ==> Bounded(sections, groups, g) && NoFeatures(groups[g])
    ensures UntilHeader(KeptLines(sections, groups, i + 1)) == []
    decreases |groups| - i
  {
    hide Gone, IsHeader, IsHooksLine, IsFeatures, TrimLines;
    var n := i + 1;
    if n < |groups| {
      assert Bounded(sections, groups, n);
      KeptStep(sections, groups, n);
      if Gone(sections, n) {
        NextIsHeader(sections, groups, n);
        NothingBefore(KeptLines(sections, groups, n + 1));
      } else {
        assert IsHeader(groups[n][0]);
        TrimmedKinds(groups[n]);
      }
    }
  }

  /** Dropping sections adds no hooks line in front of the first header. */
  lemma {:induction false} KeptRegion(sections: seq<string>, groups: seq<seq<string>>, i: nat)
    requires |sections| == |groups| && i <= |groups|
    requires forall g :: i < g < |groups| ==> Bounded(sections, groups, g) && NoFeatures(groups[g])
    ensures HookCount(UntilHeader(KeptLines(sections, groups, i))) <= HookCount(UntilHeader(Flatten(groups, i)))
    decreases |groups| - i
  {
    hide Gone, IsHeader, IsHooksLine, IsFeatures, TrimLines, HookCount, UntilHeader, HasHeader, Bounded;
    hide NoFeatures, KeptLines;
    if i == |groups| {
      NoneKept(sections, groups, i);
    } else {
      KeptStep(sections, groups, i);
      KeptRegion(sections, groups, i + 1);
      var t, kept, rest := TrimLines(groups[i]), KeptLines(sections, groups, i + 1), Flatten(groups, i + 1);
      if Gone(sections, i) {
        NextIsHeader(sections, groups, i);
        NothingBefore(kept);
        NoneCounted();
      } else {
        TrimmedKinds(groups[i]);
        UntilTrimmed(t, groups[i]);
        UntilAppend(t, kept);
        UntilAppend(groups[i], rest);
        if !HasHeader(t) {
          UntilAll(t);
          UntilAll(groups[i]);
          HookCountAppend(t, UntilHeader(kept));
          HookCountAppend(groups[i], UntilHeader(rest));
        }
      }
    }
  }

  lemma {:induction false} NoneKept(sections: seq<string>, groups: seq<seq<string>>, i: nat)
    requires |sections| == |groups| <= i
    ensures KeptLines(sections, groups, i) == [] == Flatten(groups, i)
  {
  }

  lemma {:induction false} NoneCounted()
    ensures HookCount([]) == 0
  {
  }

  lemma {:induction false} UntilAll(lines: seq<string>)
    requires !HasHeader(lines)
    ensures UntilHeader(lines) == lines
  {
    hide IsHeader;
    if lines != [] {
      UntilAll(lines[1..]);
    }
  }

  /** Of sections without a features line, no features line is kept. */
  lemma {:induction false} KeptBefore(sections: seq<string>, groups: seq<seq<string>>, i: nat, n: nat)
    returns (kept: seq<string>)
    requires |sections| == |groups| && i <= n <= |groups|
    requires forall g :: i <= g < n ==> NoFeatures(groups[g])
    ensures KeptLines(sections, groups, i) == kept + KeptLines(sections, groups, n) && NoFeatures(kept)
    decreases n - i
  {
    hide Gone, IsHeader, IsHooksLine, IsFeatures, TrimLines, KeptLines;
    kept := [];
    if i < n {
      var later := KeptBefore(sections, groups, i + 1, n);
      KeptStep(sections, groups, i);
      assert NoFeatures(groups[i]);
      TrimmedKinds(groups[i]);
      kept := (if Gone(sections, i) then [] else TrimLines(groups[i])) + later;
    } else {
      NothingBefore(KeptLines(sections, groups, n));
    }
  }

  // ----- ordinary texts -----

  /**
   An ordinary text has one features header, in column 0, with at most one hooks line in its
   section, and a section kept right behind a dropped one starts with a header.
   */
  ghost predicate Ordinary(text: string) {
    var lines, groups, sections := SplitLines(text), Groups(SplitLines(text)), Sections(text);
    && (exists s :: 0 <= s < |lines| && OnlyFeatures(lines, s))
    && OneHooksLine(lines)
    && forall g :: 0 < g < |groups| ==> Bounded(sections, groups, g)
  }

  ghost predicate OnlyFeatures(lines: seq<string>, s: nat)
    requires s < |lines|
  {
    Opens(lines[s]) && IsFeatures(lines[s]) && forall k :: 0 <= k < |lines| && k != s ==> !IsFeatures(lines[k])
  }

  lemma {:induction false} GroupsNoFeatures(lines: seq<string>)
    requires NoFeatures(lines)
    ensures forall g :: 0 <= g < |Groups(lines)| ==> NoFeatures(Groups(lines)[g])
  {
    hide IsFeatures, Opens;
    if lines != [] {
      GroupsNoFeatures(lines[CutAt(lines, 1)..]);
    }
  }

  /** The sections in front of the features header, its own, and the sections behind it. */
  lemma {:induction false} GroupsAround(lines: seq<string>, s: nat) returns (n: nat)
    requires s < |lines| && OnlyFeatures(lines, s)
    ensures n < |Groups(lines)| && Flatten(Groups(lines), n) == lines[s..]
    ensures Groups(lines)[n] != [] && IsFeatures(Groups(lines)[n][0]) && NoFeatures(Groups(lines)[n][1..])
    ensures forall g :: 0 <= g < |Groups(lines)| && g != n ==> NoFeatures(Groups(lines)[g])
  {
    hide IsFeatures, Opens, Groups, Flatten, CutAt;
    var before, behind := lines[..s], lines[s..];
    assert lines == before + behind && behind[0] == lines[s];
    assert NoFeatures(before) && NoFeatures(behind[1..]);
    GroupsSplit(before, behind);
    n := |Groups(before)|;
    FlattenGroups(behind);
    FlattenShift(Groups(before), Groups(behind), 0);
    GroupsNoFeatures(before);
    FeaturesFirst(behind);
    assert Groups(lines)[n] == Groups(behind)[0];
  }

  lemma {:induction false} FeaturesFirst(behind: seq<string>)
    requires behind != [] && IsFeatures(behind[0]) && NoFeatures(behind[1..])
    ensures var groups := Groups(behind);
            && groups != [] && groups[0] != [] && groups[0][0] == behind[0] && NoFeatures(groups[0][1..])
            && forall g :: 0 < g < |groups| ==> NoFeatures(groups[g])
  {
    hide IsFeatures, Opens;
    var n := CutAt(behind, 1);
    var later := behind[n..];
    assert forall k :: 0 <= k < |later| ==> later[k] == behind[1..][n - 1 + k];
    assert NoFeatures(later);
    GroupsNoFeatures(later);
    var first := behind[..n];
    assert forall k :: 0 <= k < n - 1 ==> first[1..][k] == behind[1..][k];
    assert Groups(behind) == [first] + Groups(later);
  }

  /** The section with the features header is kept, and still starts with it. */
  lemma {:induction false} FeaturesGroupKept(groups: seq<seq<string>>, sections: seq<string>, n: nat)
    requires sections == JoinAll(groups) && n < |groups| && groups[n] != [] && IsFeatures(groups[n][0])
    requires forall k :: 0 <= k < |groups[n]| ==> BreakFree(groups[n][k])
    ensures !Gone(sections, n) && TrimLines(groups[n]) != [] && IsFeatures(TrimLines(groups[n])[0])
  {
    hide IsFeatures, Dropped, Blank, BreakFree, TrimLines, LStrip, Join, FirstLine;
    LineKinds(groups[n][0]);
    FirstLineOf(groups[n]);
    NotHookSection(groups[n][0]);
    if Dropped(sections, n) {
      DroppedIsHookSection(sections, n);
    }
    FirstTrimmed(groups[n]);
  }

  lemma {:induction false} ScanUntil(lines: seq<string>, s: nat)
    requires s < |lines| && IsFeatures(lines[s]) && forall k :: 0 <= k < |lines| && k != s ==> !IsFeatures(lines[k])
    ensures var (start, end) := Scan(lines, 0, None);
            start == Some(s) && s <= end <= |lines| && UntilHeader(lines[s..]) == lines[s..end]
  {
    hide Scan, IsFeatures, IsHeader, UntilHeader;
    ScanFinds(lines, 0, None);
    var (start, end) := Scan(lines, 0, None);
    LineKinds(lines[s]);
    var behind := lines[s..];
    assert forall k :: 0 <= k < end - s ==> behind[k] == lines[s + k];
    UntilIs(behind, end - s);
    assert behind[..end - s] == lines[s..end];
  }

  lemma {:induction false} OnlyIn(before: seq<string>, kept: seq<string>)
    requires NoFeatures(before) && kept != [] && IsFeatures(kept[0]) && NoFeatures(kept[1..])
    ensures var all := before + kept;
            IsFeatures(all[|before|]) && forall k :: 0 <= k < |all| && k != |before| ==> !IsFeatures(all[k])
  {
    hide IsFeatures;
    var all := before + kept;
    forall k | 0 <= k < |all| && k != |before| ensures !IsFeatures(all[k]) {
      if k < |before| {
        assert all[k] == before[k];
      } else {
        assert all[k] == kept[1..][k - |before| - 1];
      }
    }
  }

  lemma {:induction false} TailNoFeatures(t: seq<string>, group: seq<string>)
    requires t != [] && |t| <= |group| && NoFeatures(group[1..])
    requires forall j :: 0 <= j < |t| ==> IsFeatures(t[j]) == IsFeatures(group[j])
    ensures NoFeatures(t[1..])
  {
    hide IsFeatures;
    forall k | 0 <= k < |t[1..]| ensures !IsFeatures(t[1..][k]) {
      assert group[1..][k] == group[k + 1] && t[1..][k] == t[k + 1];
    }
  }

  /** The kept lines from the features header on start with it and hold no other features line. */
  lemma {:induction false} KeptBehind(sections: seq<string>, groups: seq<seq<string>>, n: nat)
    requires |sections| == |groups| && n < |groups| && groups[n] != [] && NoFeatures(groups[n][1..])
    requires !Gone(sections, n) && TrimLines(groups[n]) != [] && IsFeatures(TrimLines(groups[n])[0])
    requires forall g :: n < g < |groups| ==> NoFeatures(groups[g])
    ensures var kept := KeptLines(sections, groups, n); kept != [] && IsFeatures(kept[0]) && NoFeatures(kept[1..])
  {
    hide IsFeatures, IsHeader, IsHooksLine, Gone, TrimLines, KeptLines;
    var later := KeptBefore(sections, groups, n + 1, |groups|);
    NoneKept(sections, groups, |groups|);
    assert later + [] == later;
    KeptStep(sections, groups, n);
    var t := TrimLines(groups[n]);
    TrimmedKinds(groups[n]);
    TailNoFeatures(t, groups[n]);
    assert (t + later)[1..] == t[1..] + later;
  }

  /** Dropping old hook sections from an ordinary text leaves at most one hooks line to enable. */
  lemma {:induction false} OrdinaryKeepsOne(stripped: string)
    requires Ordinary(RStrip(stripped))
    ensures HasFeatures(BareLines(stripped)) && OneHooksLine(BareLines(stripped))
  {
    hide IsFeatures, Opens, RStrip, TrimLines, Groups, Scan, KeptLines, UntilHeader, HookCount, Gone, Bounded;
    hide BreakFree;
    hide NoFeatures, SplitLines, Flatten;
    var text := RStrip(stripped);
    var lines, groups, sections := SplitLines(text), Groups(SplitLines(text)), Sections(text);
    var s :| 0 <= s < |lines| && OnlyFeatures(lines, s);
    GroupsBreakFree(lines);
    var n := GroupsAround(lines, s);
    FeaturesGroupKept(groups, sections, n);
    KeptBehind(sections, groups, n);
    var before := KeptBefore(sections, groups, 0, n);
    KeptEnd(sections, groups, 0);
    var bare, kept := BareLines(stripped), KeptLines(sections, groups, n);
    assert bare == before + kept;
    OnlyIn(before, kept);
    KeptRegion(sections, groups, n);
    ScanUntil(lines, s);
    ScanUntil(bare, |before|);
    assert bare[|before|..] == kept;
  }

  /** A text without a features line has none after the drop stage either. */
  lemma {:induction false} NoFeaturesKept(stripped: string)
    requires NoFeatures(SplitLines(RStrip(stripped)))
    ensures !HasFeatures(BareLines(stripped))
  {
    hide IsFeatures, IsHeader, RStrip, Groups, Scan, KeptLines, SplitLines, BareLines;
    var text := RStrip(stripped);
    var groups, sections := Groups(SplitLines(text)), Sections(text);
    GroupsNoFeatures(SplitLines(text));
    var kept := KeptBefore(sections, groups, 0, |groups|);
    NoneKept(sections, groups, |groups|);
    assert kept + [] == kept;
    BareAreKept(stripped);
    ScanFinds(BareLines(stripped), 0, None);
  }

  /** For an ordinary text without a start marker only a Stop header left behind undoes idempotence. */
  lemma {:induction false} MergeIdempotentWhenOrdinary(existing: string, body: string, marker: string)
    requires PlainMarker(marker) && !Contains(body, EndMarker(marker))
    requires Merge(existing, Block(body, marker), marker).Ok?
    requires var stripped := StripBlock(existing, marker).value;
             Ordinary(RStrip(stripped)) && !Contains(stripped, StartMarker(marker))
    ensures var merged := Merge(existing, Block(body, marker), marker).value;
            Merge(merged, Block(body, marker), marker) == Ok(merged)
            <==> !StopLeft(Sections(RStrip(StripBlock(existing, marker).value)))
  {
    assert StripBlock(existing, marker).Ok?;
    hide *;
    var stripped := StripBlock(existing, marker).value;
    OrdinaryKeepsOne(stripped);
    OneExposesNothing(BareLines(stripped));
    MergeIdempotentWithFeatures(existing, body, marker);
  }
}
