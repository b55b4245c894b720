/**
 The features section: enabling the hooks feature settles in one pass.
 */
module CodexFeatures {
  import opened Wrappers
  import opened Text
  import opened CodexConfig
  import opened CodexLines

  lemma {:induction false} FeaturesLine()
    ensures BreakFree(FEATURES) && !Blank(FEATURES) && RStrip(FEATURES) == FEATURES && LStrip(FEATURES) == FEATURES
    ensures IsFeatures(FEATURES)
  {
    PlainText(FEATURES);
    hide BreakFree, Blank, RStrip, LStrip;
  }

  lemma {:induction false} HookPlain()
    ensures BreakFree(HOOK_FEATURE) && !Blank(HOOK_FEATURE) &&
      RStrip(HOOK_FEATURE) == LStrip(HOOK_FEATURE) == HOOK_FEATURE
  {
    PlainText(HOOK_FEATURE);
    hide BreakFree, Blank, RStrip, LStrip;
  }

  lemma {:induction false} HookLine()
    ensures BreakFree(HOOK_FEATURE) && !Blank(HOOK_FEATURE) && RStrip(HOOK_FEATURE) == HOOK_FEATURE
    ensures IsHooksLine(HOOK_FEATURE) && LineWeight(HOOK_FEATURE) == 0
  {
    hide BreakFree, Blank, RStrip, LStrip;
    HookPlain();
    assert HOOK_TABLE[0] == '[' && HOOK_FEATURE[0] == 'h';
  }

  /** The two lines the merge may add are plain, and are what they are meant to be. */
  lemma {:induction false} AddedLines()
    ensures BreakFree(FEATURES) && !Blank(FEATURES) && RStrip(FEATURES) == FEATURES && LStrip(FEATURES) == FEATURES
    ensures BreakFree(HOOK_FEATURE) && !Blank(HOOK_FEATURE) && RStrip(HOOK_FEATURE) == HOOK_FEATURE
    ensures IsFeatures(FEATURES) && IsHooksLine(HOOK_FEATURE) && LineWeight(HOOK_FEATURE) == 0
  {
    hide *;
    FeaturesLine();
    HookLine();
  }

  /** A line is at most one of: features header, other header, hooks line; a blank line is none. */
  lemma {:induction false} LineKinds(line: string)
    ensures IsFeatures(line) ==> !IsHeader(line) && !IsHooksLine(line) && !Blank(line)
    ensures IsHeader(line) ==> !IsHooksLine(line) && !Blank(line)
    ensures IsHooksLine(line) ==> !Blank(line) && !IsHookTable(line)
  {
    BlankStrips(line);
    RStripShape(LStrip(line));
    hide IsSpace, RStrip, LStrip, Blank;
    assert FEATURES[0] == '[' && HOOK_PREFIX[0] == 'h' && HOOK_TABLE[0] == '[';
    assert Strip(line) != "" ==> Strip(line)[0] == LStrip(line)[0];
  }

  lemma {:induction false} BlankStrips(line: string)
    ensures Blank(line) <==> Strip(line) == ""
  {
    LStripShape(line);
    var core := LStrip(line);
    RStripBlank(core);
    hide LStrip, RStrip, IsSpace;
    assert line == line[..|line| - |core|] + core;
    BlankAppend(line[..|line| - |core|], core);
    assert Blank(line[..|line| - |core|]);
  }

  lemma {:induction false} KindStripped(line: string)
    requires !Blank(line)
    ensures IsFeatures(RStrip(line)) == IsFeatures(line)
    ensures IsHeader(RStrip(line)) == IsHeader(line)
    ensures IsHooksLine(RStrip(line)) == IsHooksLine(line)
  {
    hide Strip, RStrip, LStrip, Blank;
    StripBothEnds(line);
  }

  // ----- scanning -----

  lemma {:induction false} ScanRun(lines: seq<string>, i: nat, s: nat, e: nat)
    requires i <= e <= |lines|
    requires forall k :: i <= k < e ==> !IsFeatures(lines[k]) && !IsHeader(lines[k])
    requires e < |lines| ==> IsHeader(lines[e])
    ensures Scan(lines, i, Some(s)) == (Some(s), e)
    decreases e - i
  {
    hide IsFeatures, IsHeader;
    if i < e {
      ScanRun(lines, i + 1, s, e);
    } else if e < |lines| {
      LineKinds(lines[e]);
    }
  }

  /** Scanning depends on the lines before the section and on where the section ends. */
  lemma {:induction false} ScanSame(lines: seq<string>, other: seq<string>, i: nat, start: Option<nat>, s: nat, e: nat)
    requires i <= s < |lines| && Scan(lines, i, start).0 == Some(s) && (start.Some? ==> start.value < i)
    requires s < e <= |other| && other[..s] == lines[..s] && IsFeatures(other[s])
    requires forall k :: s < k < e ==> !IsFeatures(other[k]) && !IsHeader(other[k])
    requires e < |other| ==> IsHeader(other[e])
    ensures Scan(other, i, start) == (Some(s), e)
    decreases s - i
  {
    hide IsFeatures, IsHeader;
    if i == s {
      ScanRun(other, s + 1, s, e);
    } else {
      assert other[i] == other[..s][i] == lines[..s][i] == lines[i];
      if IsFeatures(lines[i]) {
        ScanSame(lines, other, i + 1, Some(i), s, e);
      } else if start.Some? && IsHeader(lines[i]) {
        assert false;
      } else {
        ScanSame(lines, other, i + 1, start, s, e);
      }
    }
  }

  // ----- normalising -----

  function HookCount(lines: seq<string>): nat {
    if lines == [] then 0 else (if IsHooksLine(lines[0]) then 1 else 0) + HookCount(lines[1..])
  }

  /** Exactly one hooks line, spelled as the merge spells it. */
  predicate OneHook(lines: seq<string>, k: nat) {
    k < |lines| && lines[k] == HOOK_FEATURE && forall j :: 0 <= j < |lines| && j != k ==> !IsHooksLine(lines[j])
  }

  lemma {:induction false} NoHooks(lines: seq<string>)
    ensures HookCount(lines) == 0 <==> forall j :: 0 <= j < |lines| ==> !IsHooksLine(lines[j])
    ensures HookCount(lines) == 0 ==> Normalized(lines, true) == lines
  {
    hide IsHooksLine;
    if lines != [] {
      NoHooks(lines[1..]);
      assert forall j :: 0 < j < |lines| ==> lines[j] == lines[1..][j - 1];
      assert lines == [lines[0]] + lines[1..];
    }
  }

  /** Normalising removes all hooks lines but one. */
  lemma {:induction false} NormalizedLength(lines: seq<string>, inserted: bool)
    ensures |Normalized(lines, inserted)| == |lines| - HookCount(lines) + (if inserted then 0 else 1)
  {
    hide IsHooksLine;
    if lines != [] {
      NormalizedLength(lines[1..], inserted || IsHooksLine(lines[0]));
    }
  }

  lemma {:induction false} NormalizedFixed(lines: seq<string>, k: nat)
    requires OneHook(lines, k)
    ensures Normalized(lines, false) == lines && HookCount(lines) == 1
  {
    AddedLines();
    hide IsHooksLine, Blank, BreakFree, RStrip, LStrip, IsFeatures;
    assert lines == [lines[0]] + lines[1..];
    if k == 0 {
      NoHooks(lines[1..]);
    } else {
      NormalizedFixed(lines[1..], k - 1);
    }
  }

  /** Normalising puts the one hooks line somewhere, and keeps the other lines. */
  lemma {:induction false} NormalizedShape(lines: seq<string>, inserted: bool) returns (k: nat)
    ensures !inserted ==> OneHook(Normalized(lines, inserted), k)
    ensures inserted ==> forall j :: 0 <= j < |Normalized(lines, inserted)| ==>
      !IsHooksLine(Normalized(lines, inserted)[j])
    ensures forall j :: 0 <= j < |Normalized(lines, inserted)| ==>
              Normalized(lines, inserted)[j] == HOOK_FEATURE || Normalized(lines, inserted)[j] in lines
    ensures lines != [] && !IsHooksLine(lines[0]) ==>
              Normalized(lines, inserted)[0] == lines[0] && (!inserted ==> k > 0)
    ensures Weight(Normalized(lines, inserted)) <= Weight(lines)
  {
    hide IsHooksLine, Blank, BreakFree, RStrip, LStrip, IsFeatures, LineWeight, Weight;
    AddedLines();
    k := 0;
    if lines == [] {
      SingleWeight([], HOOK_FEATURE);
    } else {
      LineKinds(lines[0]);
      SingleWeight(lines[1..], lines[0]);
      assert lines == [lines[0]] + lines[1..];
      if IsHooksLine(lines[0]) {
        var rest := NormalizedShape(lines[1..], true);
        SingleWeight(Normalized(lines[1..], true), HOOK_FEATURE);
        assert [] + Normalized(lines[1..], true) == Normalized(lines[1..], true);
      } else {
        var rest := NormalizedShape(lines[1..], inserted);
        k := rest + 1;
        SingleWeight(Normalized(lines[1..], inserted), lines[0]);
      }
    }
  }

  lemma {:induction false} SingleWeight(rest: seq<string>, line: string)
    ensures Weight([line] + rest) == LineWeight(line) + Weight(rest)
    ensures Weight([line]) == LineWeight(line) && Weight([]) == 0
  {
  }

  // ----- one pass settles the section -----

  /** The features section holds exactly one hooks line, spelled as the merge spells it. */
  ghost predicate Enabled(lines: seq<string>) {
    var (s, e) := Scan(lines, 0, None);
    s.Some? && s.value <= e && exists k :: 0 <= k < e - s.value && OneHook(lines[s.value..e], k)
  }

  lemma {:induction false} EnabledFixed(lines: seq<string>)
    requires Enabled(lines)
    ensures EnsureLines(lines) == lines
  {
    hide IsFeatures, IsHeader, IsHooksLine, Scan, Normalized;
    var (s, e) := Scan(lines, 0, None);
    var k :| 0 <= k < e - s.value && OneHook(lines[s.value..e], k);
    NormalizedFixed(lines[s.value..e], k);
    assert lines[..s.value] + lines[s.value..e] + lines[e..] == lines;
  }

  lemma {:induction false} WeightReplace(before: seq<string>, was: seq<string>, now: seq<string>, after: seq<string>)
    requires Weight(now) <= Weight(was)
    ensures Weight(before + now + after) <= Weight(before + was + after)
  {
    hide LineWeight, Weight;
    WeightAppend(before + now, after);
    WeightAppend(before, now);
    WeightAppend(before + was, after);
    WeightAppend(before, was);
  }

  lemma {:induction false} InPlace(before: seq<string>, now: seq<string>, after: seq<string>)
    ensures var all := before + now + after;
            && all[|before|..|before| + |now|] == now && all[..|before|] == before
            && all[|before| + |now|..] == after && forall j :: |before| <= j < |before| + |now| ==>
                all[j] == now[j - |before|]
  {
  }

  /** The features section of the lines. */
  predicate SectionAt(lines: seq<string>, s: nat, e: nat) {
    var (start, end) := Scan(lines, 0, None);
    start.Some? && start.value == s && end == e && s < e <= |lines|
  }

  lemma {:induction false} SectionFound(lines: seq<string>) returns (s: nat, e: nat)
    requires Scan(lines, 0, None).0.Some?
    ensures SectionAt(lines, s, e) && Scan(lines, 0, None).0 == Some(s) && s < e <= |lines|
    ensures IsFeatures(lines[s]) && (e < |lines| ==> IsHeader(lines[e]))
    ensures forall k :: s < k < e ==> !IsFeatures(lines[k]) && !IsHeader(lines[k])
  {
    hide IsFeatures, IsHeader, Scan;
    ScanFinds(lines, 0, None);
    var (start, end) := Scan(lines, 0, None);
    s, e := start.value, end;
  }

  lemma {:induction false} EnsureIs(lines: seq<string>, s: nat, e: nat)
    requires SectionAt(lines, s, e)
    ensures EnsureLines(lines) == lines[..s] + Normalized(lines[s..e], false) + lines[e..]
  {
  }

  lemma {:induction false} NormalizedBehind(line: string, lines: seq<string>)
    requires !IsHooksLine(line)
    ensures Normalized([line] + lines, false) == [line] + Normalized(lines, false)
  {
    hide IsHooksLine;
  }

  lemma {:induction false} SectionCut(lines: seq<string>, s: nat, e: nat)
    requires s < e <= |lines|
    ensures lines == lines[..s + 1] + lines[s + 1..e] + lines[e..]
    ensures lines[s..e] == [lines[s]] + lines[s + 1..e] && lines[..s + 1] == lines[..s] + [lines[s]]
    ensures var region := lines[s + 1..e]; forall k :: 0 <= k < |region| ==> region[k] == lines[s + 1 + k]
  {
  }

  /** The normalised section starts with its header line, and holds no other header and no features line. */
  lemma {:induction false} NormalizedSection(lines: seq<string>, s: nat, e: nat)
    requires s < e <= |lines| && IsFeatures(lines[s])
    requires forall k :: s < k < e ==> !IsFeatures(lines[k]) && !IsHeader(lines[k])
    ensures var n := Normalized(lines[s..e], false);
            n != [] && n[0] == lines[s] && forall j :: 0 < j < |n| ==> !IsFeatures(n[j]) && !IsHeader(n[j])
  {
    hide *;
    var behind := lines[s + 1..e];
    LineKinds(lines[s]);
    SectionCut(lines, s, e);
    NormalizedBehind(lines[s], behind);
    NormalizedKinds(behind, false);
    var n := Normalized(behind, false);
    assert forall j :: 0 < j < |[lines[s]] + n| ==> ([lines[s]] + n)[j] == n[j - 1];
  }

  /** Enabling the feature leaves an enabled section, also after stripping the end of the text. */
  lemma {:induction false} EnsureEnables(lines: seq<string>)
    requires Scan(lines, 0, None).0.Some?
    ensures Enabled(TrimLines(EnsureLines(lines)))
    ensures Weight(TrimLines(EnsureLines(lines))) <= Weight(lines)
  {
    hide *;
    var s, e := SectionFound(lines);
    EnsureIs(lines, s, e);
    LineKinds(lines[s]);
    var region, n := lines[s..e], Normalized(lines[s..e], false);
    var k := NormalizedShape(region, false);
    assert region[0] == lines[s];
    assert lines == lines[..s] + region + lines[e..];
    WeightReplace(lines[..s], region, n, lines[e..]);
    TrimWeight(EnsureLines(lines));
    NormalizedSection(lines, s, e);
    InPlace(lines[..s], n, lines[e..]);
    TrimEnabled(lines, EnsureLines(lines), s, s + |n|, k);
  }

  /** Lines of a normalised section after its header are neither headers nor features lines. */
  lemma {:induction false} NormalizedKinds(lines: seq<string>, inserted: bool)
    requires forall j :: 0 <= j < |lines| ==> !IsFeatures(lines[j]) && !IsHeader(lines[j])
    ensures forall j :: 0 <= j < |Normalized(lines, inserted)| ==>
              !IsFeatures(Normalized(lines, inserted)[j]) && !IsHeader(Normalized(lines, inserted)[j])
  {
    HookLine();
    LineKinds(HOOK_FEATURE);
    hide IsFeatures, IsHeader, IsHooksLine, Blank, BreakFree, RStrip, LineWeight;
    if lines != [] {
      NormalizedKinds(lines[1..], inserted || IsHooksLine(lines[0]));
    }
  }

  lemma {:induction false} TrimEnabled(lines: seq<string>, all: seq<string>, s: nat, e: nat, k: nat)
    requires s < |lines| && Scan(lines, 0, None).0 == Some(s)
    requires s < e <= |all| && all[..s] == lines[..s] && IsFeatures(all[s])
    requires forall j :: s < j < e ==> !IsFeatures(all[j]) && !IsHeader(all[j])
    requires e < |all| ==> IsHeader(all[e])
    requires k > 0 && OneHook(all[s..e], k)
    ensures Enabled(TrimLines(all))
  {
    hide TrimLines, Blank, RStrip, IsFeatures, IsHeader, IsHooksLine, BreakFree, LStrip, LineWeight, Scan;
    AddedLines();
    TrimShape(all);
    var t := TrimLines(all);
    assert all[s + k] == all[s..e][k] == HOOK_FEATURE;
    assert |t| > s + k;
    if e < |all| {
      LineKinds(all[e]);
    }
    var f := if e < |all| then e else |t|;
    forall j | 0 <= j < |t|
      ensures IsFeatures(t[j]) == IsFeatures(all[j]) && IsHeader(t[j]) == IsHeader(all[j])
      ensures IsHooksLine(t[j]) == IsHooksLine(all[j])
    {
      TrimmedAt(all, j);
    }
    TrimmedAt(all, s + k);
    assert t[..s] == all[..s];
    ScanSame(lines, t, 0, None, s, f);
    forall j | 0 <= j < f - s && j != k ensures !IsHooksLine(t[s..f][j]) {
      assert t[s..f][j] == t[s + j] && all[s..e][j] == all[s + j];
    }
    assert OneHook(t[s..f], k);
  }

  /** A trimmed text differs from the text at most in the end of its last line. */
  lemma {:induction false} TrimmedAt(lines: seq<string>, j: nat)
    requires j < |TrimLines(lines)|
    ensures j < |TrimLines(lines)| - 1 ==> TrimLines(lines)[j] == lines[j]
    ensures TrimLines(lines)[j] == lines[j] || (!Blank(lines[j]) && TrimLines(lines)[j] == RStrip(lines[j]))
    ensures lines[j] == HOOK_FEATURE ==> TrimLines(lines)[j] == HOOK_FEATURE
    ensures IsFeatures(TrimLines(lines)[j]) == IsFeatures(lines[j])
    ensures IsHeader(TrimLines(lines)[j]) == IsHeader(lines[j])
    ensures IsHooksLine(TrimLines(lines)[j]) == IsHooksLine(lines[j])
  {
    AddedLines();
    TrimShape(lines);
    hide TrimLines, Blank, RStrip, LStrip, BreakFree, IsFeatures, IsHeader, IsHooksLine, LineWeight;
    if j == |TrimLines(lines)| - 1 {
      KindStripped(lines[j]);
    }
  }
}
