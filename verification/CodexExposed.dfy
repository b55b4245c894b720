/**
 When enabling the hooks feature leaves the end of a section to strip: a line that ends in
 whitespace comes to stand directly in front of an opening line, because the hooks lines between
 the two are removed.
 */
module CodexExposed {
  import opened Wrappers
  import opened Text
  import opened CodexConfig
  import opened CodexLines
  import opened CodexSections
  import opened CodexFeatures
  import opened CodexMerge
  import opened CodexStability
  import opened CodexSettling

  // ----- ends of sections -----

  /** If line `k` opens a section, the line in front of it ends in something. */
  predicate EndKept(lines: seq<string>, k: nat)
    requires 0 < k < |lines|
  {
    Opens(lines[k]) ==> !IsSpaceEnd(lines[k - 1])
  }

  /** No line in front of an opening line is empty or ends in whitespace. */
  predicate EndsKept(lines: seq<string>) {
    forall k :: 0 < k < |lines| ==> EndKept(lines, k)
  }

  lemma {:induction false} EndsAppend(a: seq<string>, b: seq<string>)
    requires a != [] && b != []
    ensures EndsKept(a + b) <==> EndsKept(a) && EndsKept(b) && (Opens(b[0]) ==> !IsSpaceEnd(a[|a| - 1]))
  {
    hide Opens, IsSpaceEnd;
    var all := a + b;
    forall k | 0 < k < |a| ensures EndKept(all, k) <==> EndKept(a, k) {
    }
    forall k | 0 < k < |b| ensures EndKept(all, |a| + k) <==> EndKept(b, k) {
    }
    assert EndKept(all, |a|) <==> (Opens(b[0]) ==> !IsSpaceEnd(a[|a| - 1]));
    hide EndKept;
    if EndsKept(a) && EndsKept(b) && EndKept(all, |a|) {
      forall k | 0 < k < |all| ensures EndKept(all, k) {
        assert k > |a| ==> EndKept(b, k - |a|);
      }
    }
  }

  lemma {:induction false} NoOpening(lines: seq<string>)
    requires forall k :: 0 < k < |lines| ==> !Opens(lines[k])
    ensures EndsKept(lines)
  {
    hide Opens, IsSpaceEnd;
  }

  predicate LastKept(group: seq<string>) {
    group == [] || !IsSpaceEnd(group[|group| - 1])
  }

  predicate AllLastKept(groups: seq<seq<string>>) {
    forall g :: 0 <= g < |groups| ==> LastKept(groups[g])
  }

  lemma {:induction false} ConsEnds(first: seq<string>, rest: seq<seq<string>>)
    ensures AllLastKept([first] + rest) <==> LastKept(first) && AllLastKept(rest)
  {
    hide LastKept;
    var all := [first] + rest;
    assert all[0] == first;
    if AllLastKept(all) {
      forall g | 0 <= g < |rest| ensures LastKept(rest[g]) {
        assert all[g + 1] == rest[g];
      }
    }
  }

  lemma {:induction false} FirstGroupOf(lines: seq<string>) returns (first: seq<string>, later: seq<string>)
    requires lines != []
    ensures lines == first + later && first != [] && (later != [] ==> Opens(later[0]))
    ensures Groups(lines) == [first] + Groups(later) && EndsKept(first)
  {
    var n := CutAt(lines, 1);
    first, later := lines[..n], lines[n..];
    assert forall k :: 0 < k < |first| ==> first[k] == lines[k];
    hide Opens, EndsKept;
    NoOpening(first);
  }

  lemma {:induction false} GroupEndsStep(first: seq<string>, later: seq<string>, rest: seq<seq<string>>)
    requires first != [] && EndsKept(first) && (later != [] ==> Opens(later[0])) && (later == [] ==> rest == [])
    requires AllLastKept(rest) <==> EndsKept(later) && LastKept(later)
    ensures AllLastKept([first] + rest) <==> EndsKept(first + later) && LastKept(first + later)
  {
    hide Opens, IsSpaceEnd, EndsKept, AllLastKept;
    ConsEnds(first, rest);
    if later == [] {
      assert first + later == first;
      NothingKept();
    } else {
      EndsAppend(first, later);
    }
  }

  /** The last lines of all sections end in something exactly when no opening line follows an open end. */
  lemma {:induction false} GroupEnds(lines: seq<string>)
    ensures AllLastKept(Groups(lines)) <==> EndsKept(lines) && LastKept(lines)
    decreases |lines|
  {
    if lines == [] {
      NoGroups();
    } else {
      hide *;
      var first, later := FirstGroupOf(lines);
      GroupEnds(later);
      if later == [] {
        NoGroups();
      }
      GroupEndsStep(first, later, Groups(later));
    }
  }

  lemma {:induction false} NothingKept()
    ensures EndsKept([])
  {
  }

  lemma {:induction false} EndKeptIff(group: seq<string>)
    requires group != [] && !Blank(Join(group))
    ensures RStrip(Join(group)) == Join(group) <==> LastKept(group)
  {
    hide Blank, RStrip, Join, TrimLines, IsSpace;
    var last := group[|group| - 1];
    if RStrip(Join(group)) == Join(group) {
      SettledGroup(group);
      TrimShape(group);
      RStripBlank(last);
      RStripShape(last);
    } else if !IsSpaceEnd(last) {
      TrimFixed(group);
      TrimJoin(group);
    }
  }

  /** No section has an end to strip exactly when no opening line, and not the end, follows an open end. */
  lemma {:induction false} StrippedEnds(lines: seq<string>)
    requires forall i :: 0 <= i < |LineSections(lines)| ==> !Blank(LineSections(lines)[i])
    ensures (forall i :: 0 <= i < |LineSections(lines)| ==> RStrip(LineSections(lines)[i]) == LineSections(lines)[i])
            <==> EndsKept(lines) && LastKept(lines)
  {
    hide Blank, RStrip, Join, LastKept, EndsKept, Opens;
    GroupEnds(lines);
    var sections, groups := LineSections(lines), Groups(lines);
    hide Groups;
    forall g | 0 <= g < |groups|
      ensures RStrip(sections[g]) == sections[g] <==> LastKept(groups[g])
    {
      assert sections[g] == Join(groups[g]);
      EndKeptIff(groups[g]);
    }
    if AllLastKept(groups) {
    } else {
      var g :| 0 <= g < |groups| && !LastKept(groups[g]);
      assert RStrip(sections[g]) != sections[g];
    }
  }

  lemma {:induction false} BlankOpensNothing(line: string)
    requires Blank(line)
    ensures !Opens(line)
  {
    hide Blank;
    if Opens(line) {
      OpensIsNotBlank(line);
    }
  }

  /** Stripping the end of a text opens no end within it. */
  lemma {:induction false} TrimEnds(lines: seq<string>)
    requires TrimLines(lines) != []
    ensures EndsKept(TrimLines(lines)) <==> EndsKept(lines)
    ensures LastKept(TrimLines(lines))
  {
    TrimShape(lines);
    var t := TrimLines(lines);
    var last := |t| - 1;
    RStripShape(lines[last]);
    RStripBlank(lines[last]);
    OpensStripped(lines[last]);
    hide Opens, IsSpace, Blank, RStrip, TrimLines;
    forall k | 0 < k < |lines| ensures EndKept(lines, k) <==> (k < |t| ==> EndKept(t, k)) {
      if k >= |t| {
        BlankOpensNothing(lines[k]);
      }
    }
    hide EndKept;
    assert EndsKept(t) ==> EndsKept(lines);
    if EndsKept(lines) {
      forall k | 0 < k < |t| ensures EndKept(t, k) {
        assert EndKept(lines, k);
      }
    }
  }

  // ----- removed hooks lines -----

  /**
   Opening line `k` will follow line `j`, whose end is open: all lines between the two are hooks
   lines, at least one, and the one at `i` before them stays.
   */
  predicate Uncovered(lines: seq<string>, i: nat, j: nat, k: nat)
    requires k < |lines|
  {
    && i < j < k - 1 && Opens(lines[k])
    && !IsHooksLine(lines[j]) && IsSpaceEnd(lines[j])
    && forall m :: j < m < k ==> IsHooksLine(lines[m])
  }

  ghost predicate ExposedAt(lines: seq<string>, i: nat, k: nat)
    requires k < |lines|
  {
    exists j :: i < j < k && Uncovered(lines, i, j, k)
  }

  /** In the features section, or at its end, removing the later hooks lines exposes an open end. */
  ghost predicate Exposed(lines: seq<string>) {
    var (start, end) := Scan(lines, 0, None);
    && start.Some?
    && exists i, k ::
         start.value <= i < k <= end && k < |lines| && IsHooksLine(lines[i]) && ExposedAt(lines, i, k)
  }

  /** The line kept last before `k`: line `j`, or the one enabled line if that is `i`. */
  function Kept(lines: seq<string>, i: nat, j: nat): string
    requires j < |lines|
  {
    if j == i then HOOK_FEATURE else lines[j]
  }

  lemma {:induction false} HookEnds()
    ensures !IsSpaceEnd(HOOK_FEATURE) && !Opens(HOOK_FEATURE)
  {
    PrintableIsNoSpace('e');
    hide IsSpace;
    assert HOOK_FEATURE[0] == 'h' && HOOK_FEATURE[|HOOK_FEATURE| - 1] == 'e';
  }

  /** Whether the opening line `k` follows an open end once the hooks lines behind `i` are gone. */
  lemma {:induction false} ExposedHere(lines: seq<string>, i: nat, j: nat, k: nat)
    requires i <= j < k < |lines| && EndsKept(lines) && (j == i || !IsHooksLine(lines[j]))
    requires forall m :: j < m < k ==> IsHooksLine(lines[m])
    ensures ExposedAt(lines, i, k) <==> Opens(lines[k]) && IsSpaceEnd(Kept(lines, i, j))
  {
    HookEnds();
    hide Opens, IsSpaceEnd, IsHooksLine, HOOK_FEATURE;
    assert EndKept(lines, k);
    if Opens(lines[k]) && IsSpaceEnd(Kept(lines, i, j)) {
      assert Uncovered(lines, i, j, k);
    }
    if l :| i < l < k && Uncovered(lines, i, l, k) {
      assert l == j;
    }
  }

  lemma {:induction false} EndsFrom(lines: seq<string>, e: nat)
    requires EndsKept(lines) && e <= |lines|
    ensures EndsKept(lines[..e]) && EndsKept(lines[e..])
  {
    hide Opens, IsSpaceEnd;
    var first, later := lines[..e], lines[e..];
    forall k | 0 < k < |first| ensures EndKept(first, k) {
      assert EndKept(lines, k);
    }
    forall k | 0 < k < |later| ensures EndKept(later, k) {
      assert EndKept(lines, e + k);
    }
  }

  lemma {:induction false} EndsCons(before: string, lines: seq<string>)
    ensures EndsKept([before] + lines)
            <==> lines == [] || (EndsKept(lines) && (Opens(lines[0]) ==> !IsSpaceEnd(before)))
  {
    NoOpening([before]);
    hide Opens, IsSpaceEnd, EndsKept;
    if lines != [] {
      EndsAppend([before], lines);
    } else {
      assert [before] + lines == [before];
    }
  }

  /** What removing the hooks lines from `k` on exposes, with `j` the line kept last before. */
  lemma {:induction false} RemovedEnds(lines: seq<string>, i: nat, j: nat, k: nat, e: nat)
    requires i <= j < k <= e <= |lines| && EndsKept(lines) && (j == i || !IsHooksLine(lines[j]))
    requires forall m :: j < m < k ==> IsHooksLine(lines[m])
    ensures EndsKept([Kept(lines, i, j)] + (Normalized(lines[k..e], true) + lines[e..]))
            <==> forall l :: k <= l <= e && l < |lines| ==> !ExposedAt(lines, i, l)
    decreases e - k
  {
    hide Opens, IsSpaceEnd, IsHooksLine, EndsKept, ExposedAt, Kept, HOOK_FEATURE;
    var before, rest := Kept(lines, i, j), lines[e..];
    if k == e {
      assert lines[k..e] == [] && Normalized([], true) + rest == rest;
      EndsCons(before, rest);
      EndsFrom(lines, e);
      if e < |lines| {
        ExposedHere(lines, i, j, e);
      }
    } else {
      var line, later := lines[k], lines[k + 1..e];
      assert lines[k..e] == [line] + later;
      ExposedHere(lines, i, j, k);
      if IsHooksLine(line) {
        HooksLineOpensNothing(line);
        RemovedEnds(lines, i, j, k + 1, e);
        assert Normalized(lines[k..e], true) == Normalized(later, true);
        assert !ExposedAt(lines, i, k);
      } else {
        assert Kept(lines, i, k) == line by { KeptLater(lines, i, k); }
        RemovedEnds(lines, i, k, k + 1, e);
        assert Normalized(lines[k..e], true) + rest == [line] + (Normalized(later, true) + rest);
        EndsCons(before, [line] + (Normalized(later, true) + rest));
      }
    }
  }

  lemma {:induction false} KeptLater(lines: seq<string>, i: nat, k: nat)
    requires i < k < |lines|
    ensures Kept(lines, i, k) == lines[k]
  {
  }

  // ----- enabling -----

  lemma {:induction false} NormalizedFirst(lines: seq<string>, i: nat)
    requires i < |lines| && IsHooksLine(lines[i]) && forall j :: 0 <= j < i ==> !IsHooksLine(lines[j])
    ensures Normalized(lines, false) == lines[..i] + [HOOK_FEATURE] + Normalized(lines[i + 1..], true)
  {
    hide IsHooksLine;
    if i > 0 {
      NormalizedFirst(lines[1..], i - 1);
      assert lines[1..][i..] == lines[i + 1..] && [lines[0]] + lines[1..][..i - 1] == lines[..i];
    }
  }

  lemma {:induction false} NormalizedAdded(lines: seq<string>)
    requires forall k :: 0 <= k < |lines| ==> !IsHooksLine(lines[k])
    ensures Normalized(lines, false) == lines + [HOOK_FEATURE]
  {
    hide IsHooksLine;
    if lines != [] {
      NormalizedAdded(lines[1..]);
      assert lines == [lines[0]] + lines[1..];
    }
  }

  function FirstHooks(lines: seq<string>, i: nat, e: nat): (f: nat)
    requires i <= e <= |lines|
    ensures i <= f <= e && (f < e ==> IsHooksLine(lines[f])) && forall j :: i <= j < f ==> !IsHooksLine(lines[j])
    decreases e - i
  {
    if i == e || IsHooksLine(lines[i]) then i else FirstHooks(lines, i + 1, e)
  }

  /** Putting the enabled line somewhere opens no end. */
  lemma {:induction false} HookBetween(before: seq<string>, rest: seq<string>)
    requires before != [] && EndsKept(before)
    ensures EndsKept(before + ([HOOK_FEATURE] + rest)) <==> EndsKept([HOOK_FEATURE] + rest)
  {
    HookEnds();
    hide Opens, IsSpaceEnd, EndsKept, HOOK_FEATURE;
    EndsAppend(before, [HOOK_FEATURE] + rest);
  }

  lemma {:induction false} RegionCut(lines: seq<string>, s: nat, f: nat, e: nat)
    requires s <= f < e <= |lines|
    ensures var region := lines[s..e];
            && region[f - s] == lines[f] && region[f - s + 1..] == lines[f + 1..e]
            && lines[..s] + region[..f - s] == lines[..f]
            && forall j :: 0 <= j < |region| ==> region[j] == lines[s + j]
  {
  }

  /** With hooks lines in the section, the first one is replaced and the later ones are removed. */
  lemma {:induction false} EnsureAt(lines: seq<string>, s: nat, f: nat, e: nat)
    requires SectionAt(lines, s, e) && s < f < e
    requires IsHooksLine(lines[f]) && forall j :: s <= j < f ==> !IsHooksLine(lines[j])
    ensures EnsureLines(lines) == lines[..f] + ([HOOK_FEATURE] + (Normalized(lines[f + 1..e], true) + lines[e..]))
  {
    EnsureIs(lines, s, e);
    hide *;
    var region := lines[s..e];
    RegionCut(lines, s, f, e);
    NormalizedFirst(region, f - s);
    FirstInPlace(lines[..s], region[..f - s], Normalized(lines[f + 1..e], true), lines[e..]);
  }

  lemma {:induction false} EnsureWithHooks(lines: seq<string>, s: nat, f: nat, e: nat)
    requires SectionAt(lines, s, e) && s < f < e && EndsKept(lines)
    requires IsHooksLine(lines[f]) && forall j :: s <= j < f ==> !IsHooksLine(lines[j])
    ensures EndsKept(EnsureLines(lines)) <==> forall k :: f < k <= e && k < |lines| ==> !ExposedAt(lines, f, k)
  {
    EnsureAt(lines, s, f, e);
    assert Kept(lines, f, f) == HOOK_FEATURE;
    hide *;
    EndsFrom(lines, f);
    HookBetween(lines[..f], Normalized(lines[f + 1..e], true) + lines[e..]);
    RemovedEnds(lines, f, f, f + 1, e);
  }

  lemma {:induction false} FirstInPlace(front: seq<string>, before: seq<string>, after: seq<string>, rest: seq<string>)
    ensures front + (before + [HOOK_FEATURE] + after) + rest == (front + before) + ([HOOK_FEATURE] + (after + rest))
  {
  }

  lemma {:induction false} EnsureWithoutHooks(lines: seq<string>, s: nat, e: nat)
    requires SectionAt(lines, s, e) && EndsKept(lines)
    requires forall j :: s <= j < e ==> !IsHooksLine(lines[j])
    ensures EndsKept(EnsureLines(lines))
  {
    EnsureIs(lines, s, e);
    HookEnds();
    hide Opens, IsSpaceEnd, IsHooksLine, EndsKept, Scan, HOOK_FEATURE, EnsureLines;
    NormalizedAdded(lines[s..e]);
    assert lines[..s] + (lines[s..e] + [HOOK_FEATURE]) + lines[e..] == lines[..e] + ([HOOK_FEATURE] + lines[e..]);
    EndsFrom(lines, e);
    HookBetween(lines[..e], lines[e..]);
    EndsCons(HOOK_FEATURE, lines[e..]);
  }

  lemma {:induction false} ExposedLater(lines: seq<string>, f: nat, i: nat, k: nat)
    requires f <= i && k < |lines| && ExposedAt(lines, i, k)
    ensures ExposedAt(lines, f, k)
  {
    hide Opens, IsSpaceEnd, IsHooksLine;
    var j :| i < j < k && Uncovered(lines, i, j, k);
    assert Uncovered(lines, f, j, k);
  }

  /** Enabling keeps the ends of all sections exactly when it exposes none. */
  lemma {:induction false} EnsureEnds(lines: seq<string>)
    requires HasFeatures(lines) && EndsKept(lines)
    ensures EndsKept(EnsureLines(lines)) <==> !Exposed(lines)
  {
    ScanFinds(lines, 0, None);
    hide Scan, IsHooksLine, EndsKept, ExposedAt, IsFeatures, IsHeader, EnsureLines;
    var (start, e) := Scan(lines, 0, None);
    var s := start.value;
    LineKinds(lines[s]);
    var f := FirstHooks(lines, s, e);
    if f == e {
      EnsureWithoutHooks(lines, s, e);
    } else {
      EnsureWithHooks(lines, s, f, e);
      if Exposed(lines) {
        var i, k :| s <= i < k <= e && k < |lines| && IsHooksLine(lines[i]) && ExposedAt(lines, i, k);
        ExposedLater(lines, f, i, k);
      }
    }
  }

  // ----- the finished text -----

  /** Enabling in parts: what precedes the lines of the section, these lines normalised, and the rest. */
  lemma {:induction false} EnsureParts(bare: seq<string>)
    returns (front: seq<string>, region: seq<string>, rest: seq<string>)
    requires HasFeatures(bare)
    ensures bare == front + region + rest && EnsureLines(bare) == front + Normalized(region, false) + rest
    ensures front != [] && IsFeatures(front[|front| - 1])
    ensures forall k :: 0 <= k < |region| ==> !IsFeatures(region[k]) && !IsHeader(region[k])
    ensures var (start, end) := Scan(bare, 0, None);
            start.Some? && start.value == |front| - 1 && end == |front| + |region|
  {
    var (start, e) := Scan(bare, 0, None);
    var s := start.value;
    hide *;
    ScanFinds(bare, 0, None);
    LineKinds(bare[s]);
    EnsureIs(bare, s, e);
    front, region, rest := bare[..s + 1], bare[s + 1..e], bare[e..];
    SectionCut(bare, s, e);
    NormalizedBehind(bare[s], region);
    Reattach(bare[..s], bare[s], Normalized(region, false), rest);
  }

  lemma {:induction false} Reattach(before: seq<string>, line: string, lines: seq<string>, rest: seq<string>)
    ensures before + ([line] + lines) + rest == (before + [line]) + lines + rest
  {
  }

  lemma {:induction false} EnsureKeepsKinds(bare: seq<string>)
    requires HasFeatures(bare) && Stripped(bare)
    ensures SameKinds(LineSections(bare), LineSections(TrimLines(EnsureLines(bare))))
  {
    assert forall k :: 0 <= k < |bare| ==> BreakFree(bare[k]);
    assert TrimLines(bare) == bare;
    hide *;
    EnsureBreakFree(bare);
    var front, region, rest := EnsureParts(bare);
    var now := Normalized(region, false);
    LineKinds(front[|front| - 1]);
    NormalizedKeepsKinds(front, region, false, rest);
    if rest != [] {
      RestTrimmed(front + region, front + now, rest);
    } else {
      assert front + now + rest == front + now;
      EndKinds(front, region, front + now);
      SameKindsOnward(bare, front + now);
    }
  }

  lemma {:induction false} SameKindsOnward(bare: seq<string>, all: seq<string>)
    requires SameKinds(LineSections(bare), LineSections(all))
    requires SameKinds(LineSections(all), LineSections(TrimLines(all)))
    ensures SameKinds(LineSections(bare), LineSections(TrimLines(all)))
  {
    hide *;
    KindsOnward(LineSections(bare), LineSections(all), LineSections(TrimLines(all)));
  }

  lemma {:induction false} EndKinds(front: seq<string>, region: seq<string>, all: seq<string>)
    requires front != [] && IsFeatures(front[|front| - 1])
    requires forall k :: 0 <= k < |region| ==> !IsFeatures(region[k]) && !IsHeader(region[k])
    requires all == front + Normalized(region, false) && forall k :: 0 <= k < |all| ==> BreakFree(all[k])
    ensures SameKinds(LineSections(all), LineSections(TrimLines(all)))
  {
    hide *;
    NormalizedKinds(region, false);
    var n := Normalized(region, false);
    assert forall k :: |front| <= k < |all| ==> all[k] == n[k - |front|];
    TrimKeepsKinds(all, |front| - 1);
  }

  lemma {:induction false} RestTrimmed(was: seq<string>, now: seq<string>, rest: seq<string>)
    requires rest != [] && TrimLines(was + rest) == was + rest
    ensures TrimLines(now + rest) == now + rest
  {
    hide TrimLines;
    TrimSuffix(was, rest);
    TrimEnd(now, rest);
  }

  lemma {:induction false} TrimSuffix(a: seq<string>, b: seq<string>)
    requires b != [] && TrimLines(a + b) == a + b
    ensures TrimLines(b) == b
  {
  }

  lemma {:induction false} QuietEnds(sections: seq<string>)
    requires Quiet(sections)
    ensures forall i :: 0 <= i < |sections| ==> !Blank(sections[i]) && RStrip(sections[i]) == sections[i]
  {
    hide Blank, RStrip, Dropped, IsManagedSection, FirstLine;
  }

  /**
   With a features section, the finished text is settled exactly when dropping left no Stop header
   behind and enabling exposed no open end.
   */
  lemma {:induction false} CoreSettledIff(stripped: string)
    requires HasFeatures(BareLines(stripped))
    ensures Settled(CoreOf(stripped)) <==> !StopLeft(Sections(RStrip(stripped))) && !Exposed(BareLines(stripped))
  {
    var bare, lines := BareLines(stripped), CoreLines(stripped);
    BareNotEmpty(bare);
    assert lines == TrimLines(EnsureLines(bare));
    CoreStripped(stripped);
    CoreIs(stripped);
    BareIs(stripped);
    hide *;
    SettledLines(lines);
    BareQuiet(stripped);
    EnsureKeepsKinds(bare);
    KindsSettled(LineSections(bare), LineSections(lines));
    QuietEnds(LineSections(bare));
    StrippedEnds(bare);
    StrippedEnds(lines);
    TrimEnds(EnsureLines(bare));
    EnsureEnds(bare);
  }

  lemma {:induction false} BareNotEmpty(bare: seq<string>)
    requires HasFeatures(bare)
    ensures bare != []
  {
  }

  /** The sections left by the drop stage are quiet, and a second pass drops one exactly when a Stop header was left. */
  lemma {:induction false} BareQuiet(stripped: string)
    ensures Quiet(LineSections(BareLines(stripped)))
    ensures DroppedAny(LineSections(BareLines(stripped))) <==> StopLeft(Sections(RStrip(stripped)))
  {
    hide RStrip, KeptFrom, Dropped, Blank, IsManagedSection, FirstLine, BareLines, StopLeftAt, LineSections, DroppedAny;
    BareSections(stripped);
    DroppedAgain(Sections(RStrip(stripped)), 0);
  }
}
