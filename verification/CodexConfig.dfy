/**
 The text surgery that merges the managed Codex hook block into a configuration file:
 strip the fenced block, drop unmarked hook sections of older releases, enable the hooks
 feature, append the block. Functions say what each stage computes; the stages the source
 writes as loops are methods proved against them.
 */
module CodexConfig {
  import opened Wrappers
  import opened Text

  const FEATURES := "[features]"
  const HOOK_FEATURE := "hooks = true"
  const HOOK_PREFIX := "hooks"
  const POST_PARENT := "[[hooks.PostToolUse]]"
  const POST_CHILD := "[[hooks.PostToolUse.hooks"
  const STOP_PARENT := "[[hooks.Stop]]"
  const STOP_CHILD := "[[hooks.Stop.hooks"
  const POST_PREFIX := "[[hooks.PostToolUse"
  const STOP_PREFIX := "[[hooks.Stop"
  const OLD_MATCHER := "matcher = \"apply_patch|Edit|Write\""
  const OWNER_NAME := "Agent Maintainer"
  const OLD_POST_SCRIPT := ".codex/hooks/post_edit_fast_gate.py"
  const OLD_STOP_SCRIPT := ".codex/hooks/stop_full_verify.py"

  /** The end marker does not follow the first start marker, so the block cannot be cut out. */
  datatype MergeError = UnmatchedMarker

  function StartMarker(marker: string): string { "# >>> " + marker + " >>>" }

  function EndMarker(marker: string): string { "# <<< " + marker + " <<<" }

  // ----- the managed block -----

  datatype Cut = Whole | Unmatched | Shorter(rest: string)

  /** One round: cut from the first start marker through the first end marker after it. */
  function CutOnce(content: string, marker: string): (c: Cut)
    ensures c.Whole? <==> !(Contains(content, StartMarker(marker)) && Contains(content, EndMarker(marker)))
    ensures c.Shorter? ==> |c.rest| < |content|
  {
    if !Contains(content, StartMarker(marker)) || !Contains(content, EndMarker(marker)) then Whole
    else
      var start := IndexFrom(content, StartMarker(marker), 0).value;
      var end := IndexFrom(content, EndMarker(marker), start);
      if end.None? then Unmatched
      else Shorter(content[..start] + content[end.value + |EndMarker(marker)|..])
  }

  function StripBlock(content: string, marker: string): (r: Result<string, MergeError>)
    ensures r.Ok? ==> CutOnce(r.value, marker).Whole?
    decreases |content|
  {
    match CutOnce(content, marker)
    case Whole => Ok(content)
    case Unmatched => Err(UnmatchedMarker)
    case Shorter(rest) => StripBlock(rest, marker)
  }

  method StripManagedBlock(content: string, marker: string) returns (r: Result<string, MergeError>)
    ensures r == StripBlock(content, marker)
  {
    var result := content;
    while Contains(result, StartMarker(marker)) && Contains(result, EndMarker(marker))
      invariant StripBlock(content, marker) == StripBlock(result, marker)
      decreases |result|
    {
      var start := IndexFrom(result, StartMarker(marker), 0).value;
      var found := IndexFrom(result, EndMarker(marker), start);
      ghost var cut := CutOnce(result, marker);
      hide CutOnce, Contains, At;
      if found.None? {
        assert cut == Unmatched;
        return Err(UnmatchedMarker);
      }
      var end := found.value + |EndMarker(marker)|;
      assert cut == Shorter(result[..start] + result[end..]);
      result := result[..start] + result[end..];
    }
    return Ok(result);
  }

  // ----- sections -----

  /** A line that opens a section: it starts with a bracket in column 0. */
  predicate Opens(line: string) {
    "[" <= line
  }

  /** Where the first section of non-empty `lines` ends. */
  function CutAt(lines: seq<string>, i: nat): (n: nat)
    requires 1 <= i <= |lines|
    ensures i <= n <= |lines| && (n < |lines| ==> Opens(lines[n]))
    ensures forall k :: i <= k < n ==> !Opens(lines[k])
    decreases |lines| - i
  {
    if i == |lines| || Opens(lines[i]) then i else CutAt(lines, i + 1)
  }

  /** Lines grouped into sections: every section but the first starts with an opening line. */
  function Groups(lines: seq<string>): (groups: seq<seq<string>>)
    ensures groups == [] <==> lines == []
    ensures forall g :: 0 <= g < |groups| ==> groups[g] != []
    ensures forall g :: 0 < g < |groups| ==> Opens(groups[g][0])
    ensures forall g, k :: 0 <= g < |groups| && 0 < k < |groups[g]| ==> !Opens(groups[g][k])
    ensures lines != [] ==> groups[0][0] == lines[0]
  {
    if lines == [] then []
    else
      var n := CutAt(lines, 1);
      [lines[..n]] + Groups(lines[n..])
  }

  function JoinAll(groups: seq<seq<string>>): (sections: seq<string>)
    ensures |sections| == |groups|
    ensures forall i :: 0 <= i < |groups| ==> sections[i] == Join(groups[i])
  {
    seq(|groups|, i requires 0 <= i < |groups| => Join(groups[i]))
  }

  function Sections(content: string): seq<string> {
    JoinAll(Groups(SplitLines(content)))
  }

  lemma {:induction false} CutUnique(lines: seq<string>, i: nat, n: nat)
    requires 1 <= i <= n <= |lines| && (n < |lines| ==> Opens(lines[n]))
    requires forall k :: i <= k < n ==> !Opens(lines[k])
    ensures CutAt(lines, i) == n
    decreases n - i
  {
  }

  /** One section followed by lines that open the next one. */
  lemma {:induction false} GroupsCut(section: seq<string>, rest: seq<string>)
    requires section != [] && forall k :: 0 < k < |section| ==> !Opens(section[k])
    requires rest != [] ==> Opens(rest[0])
    ensures Groups(section + rest) == [section] + Groups(rest)
  {
    var lines := section + rest;
    assert forall k :: 0 < k < |section| ==> lines[k] == section[k];
    CutUnique(lines, 1, |section|);
    assert lines[..|section|] == section && lines[|section|..] == rest;
  }

  method SplitTomlSections(content: string) returns (sections: seq<string>)
    ensures sections == Sections(content)
  {
    hide SplitLines, Groups, Opens, Join;
    var lines := SplitLines(content);
    var done: seq<seq<string>> := [];
    var current: seq<string> := [];
    assert current + lines[0..] == lines;
    for i := 0 to |lines|
      invariant current == [] ==> i == 0 && done == []
      invariant forall k :: 0 < k < |current| ==> !Opens(current[k])
      invariant Groups(lines) == done + Groups(current + lines[i..])
    {
      var line := lines[i];
      if Opens(line) && current != [] {
        GroupsCut(current, lines[i..]);
        done := done + [current];
        current := [line];
        assert current + lines[i + 1..] == lines[i..];
      } else {
        assert current + lines[i..] == (current + [line]) + lines[i + 1..];
        current := current + [line];
      }
    }
    assert current + lines[|lines|..] == current + [];
    if current != [] {
      GroupsCut(current, []);
      done := done + [current];
    }
    sections := JoinAll(done);
  }

  // ----- hook sections of older releases -----

  function FirstLine(section: string): string {
    if Blank(section) then ""
    else
      LStripShape(section);
      SplitLines(LStrip(section))[0]
  }

  predicate IsManagedSection(section: string) {
    (POST_PREFIX <= FirstLine(section) || STOP_PREFIX <= FirstLine(section))
    && (Contains(section, OWNER_NAME) || Contains(section, OLD_POST_SCRIPT) || Contains(section, OLD_STOP_SCRIPT))
  }

  predicate IsParent(parent: string, child: string) {
    (FirstLine(parent) == POST_PARENT && POST_CHILD <= FirstLine(child))
    || (FirstLine(parent) == STOP_PARENT && STOP_CHILD <= FirstLine(child))
  }

  predicate IsOrphan(section: string, next: string) {
    if FirstLine(section) == POST_PARENT
    then Contains(section, OLD_MATCHER) && !(POST_CHILD <= FirstLine(next))
    else FirstLine(section) == STOP_PARENT && !(STOP_CHILD <= FirstLine(next))
  }

  function NextSection(sections: seq<string>, i: nat): string {
    if i + 1 < |sections| then sections[i + 1] else ""
  }

  /** Section `i` owns the managed section that follows it. */
  predicate OwnsManaged(sections: seq<string>, i: nat)
    requires i < |sections|
  {
    i + 1 < |sections| && IsManagedSection(sections[i + 1]) && IsParent(sections[i], sections[i + 1])
  }

  predicate OrphanAt(sections: seq<string>, i: nat)
    requires i < |sections|
  {
    IsOrphan(sections[i], NextSection(sections, i))
  }

  predicate Dropped(sections: seq<string>, i: nat)
    requires i < |sections|
  {
    IsManagedSection(sections[i]) || OwnsManaged(sections, i) || OrphanAt(sections, i)
  }

  method PreviousHookIndexes(sections: seq<string>) returns (drop: set<nat>)
    ensures drop == set i: nat | i < |sections| && Dropped(sections, i)
  {
    hide Contains, FirstLine;
    var managed := set i: nat | i < |sections| && IsManagedSection(sections[i]);
    drop := managed;
    for index := 0 to |sections|
      invariant drop == set i: nat | i < |sections| && (i in managed || (i + 1 < index && OwnsManaged(sections, i)))
    {
      hide IsManagedSection, IsParent;
      if index in managed && index >= 1 && IsParent(sections[index - 1], sections[index]) {
        assert OwnsManaged(sections, index - 1);
        drop := drop + {index - 1};
      } else if index >= 1 {
        assert !OwnsManaged(sections, index - 1);
      }
    }
    for index := 0 to |sections|
      invariant drop == set i: nat | i < |sections| &&
                  (i in managed || OwnsManaged(sections, i) || (i < index && OrphanAt(sections, i)))
    {
      hide OwnsManaged;
      var next := if index + 1 < |sections| then sections[index + 1] else "";
      if IsOrphan(sections[index], next) {
        assert OrphanAt(sections, index);
        drop := drop + {index};
      }
    }
  }

  /** The sections kept from index `i` on, their ends stripped. */
  function KeptFrom(sections: seq<string>, i: nat): seq<string>
    decreases |sections| - i
  {
    if i >= |sections| then []
    else (if Dropped(sections, i) || Blank(sections[i]) then [] else [RStrip(sections[i])]) + KeptFrom(sections, i + 1)
  }

  function StripPrevious(content: string): string {
    Join(KeptFrom(Sections(content), 0))
  }

  // ----- the features section -----

  predicate IsFeatures(line: string) {
    Strip(line) == FEATURES
  }

  /** A line that ends the features section: any other bracketed header, indented or not. */
  predicate IsHeader(line: string) {
    var s := Strip(line);
    "[" <= s && s[|s| - 1] == ']' && s != FEATURES
  }

  predicate IsHooksLine(line: string) {
    HOOK_PREFIX <= Strip(line)
  }

  function Scan(lines: seq<string>, i: nat, start: Option<nat>): (r: (Option<nat>, nat))
    requires i <= |lines|
    ensures i <= r.1 <= |lines|
    ensures start.Some? ==> r.0.Some?
    decreases |lines| - i
  {
    if i == |lines| then (start, |lines|)
    else if IsFeatures(lines[i]) then Scan(lines, i + 1, Some(i))
    else if start.Some? && IsHeader(lines[i]) then (start, i)
    else Scan(lines, i + 1, start)
  }

  method FeaturesSectionBounds(lines: seq<string>) returns (start: Option<nat>, end: nat)
    ensures (start, end) == Scan(lines, 0, None)
  {
    start := None;
    for i := 0 to |lines|
      invariant Scan(lines, 0, None) == Scan(lines, i, start)
    {
      var stripped := Strip(lines[i]);
      if stripped == FEATURES {
        start := Some(i);
        continue;
      }
      if start.Some? && "[" <= stripped && stripped[|stripped| - 1] == ']' {
        return start, i;
      }
    }
    end := |lines|;
  }

  function Normalized(lines: seq<string>, inserted: bool): seq<string> {
    if lines == [] then (if inserted then [] else [HOOK_FEATURE])
    else if IsHooksLine(lines[0]) then (if inserted then [] else [HOOK_FEATURE]) + Normalized(lines[1..], true)
    else [lines[0]] + Normalized(lines[1..], inserted)
  }

  method NormalizeFeatureSection(lines: seq<string>) returns (output: seq<string>)
    ensures output == Normalized(lines, false)
  {
    hide Strip;
    output := [];
    var inserted := false;
    for i := 0 to |lines|
      invariant Normalized(lines, false) == output + Normalized(lines[i..], inserted)
    {
      var line := lines[i];
      assert lines[i..][1..] == lines[i + 1..];
      if HOOK_PREFIX <= Strip(line) {
        if !inserted {
          output := output + [HOOK_FEATURE];
          inserted := true;
        }
        continue;
      }
      output := output + [line];
    }
    if !inserted {
      output := output + [HOOK_FEATURE];
    }
  }

  function EnsureLines(lines: seq<string>): (r: seq<string>)
    requires Scan(lines, 0, None).0.Some?
  {
    ScanFinds(lines, 0, None);
    var (start, end) := Scan(lines, 0, None);
    lines[..start.value] + Normalized(lines[start.value..end], false) + lines[end..]
  }

  function EnsureHooksFeature(content: string): string {
    if Blank(content) then FEATURES + "\n" + HOOK_FEATURE
    else
      var lines := SplitLines(content);
      if Scan(lines, 0, None).0.None? then FEATURES + "\n" + HOOK_FEATURE + "\n\n" + content
      else Join(EnsureLines(lines))
  }

  /**
   What scanning finds: the section starts at a features line, nothing in it is a header or
   another features line, and it ends at a header or at the end of the text. Nothing is
   found exactly when there is no features line at all.
   */
  lemma {:induction false} ScanFinds(lines: seq<string>, i: nat, start: Option<nat>)
    requires i <= |lines|
    requires start.Some? ==> start.value < i && IsFeatures(lines[start.value])
    requires start.Some? ==> forall k :: start.value < k < i ==> !IsFeatures(lines[k]) && !IsHeader(lines[k])
    ensures var (s, e) := Scan(lines, i, start);
            s.Some? ==> && s.value < e && IsFeatures(lines[s.value])
                        && (forall k :: s.value < k < e ==> !IsFeatures(lines[k]) && !IsHeader(lines[k]))
                        && (e < |lines| ==> IsHeader(lines[e]))
                        && (s.value >= i || s == start)
    ensures Scan(lines, i, start).0.None? <==> start.None? && forall k :: i <= k < |lines| ==> !IsFeatures(lines[k])
    decreases |lines| - i
  {
    hide IsFeatures, IsHeader;
    if i < |lines| {
      if IsFeatures(lines[i]) {
        ScanFinds(lines, i + 1, Some(i));
      } else if !(start.Some? && IsHeader(lines[i])) {
        ScanFinds(lines, i + 1, start);
      }
    }
  }

  // ----- the merge -----

  /** Everything in front of the appended block, computed from the text without the old block. */
  function CoreOf(withoutBlock: string): string {
    RStrip(EnsureHooksFeature(RStrip(StripPrevious(RStrip(withoutBlock)))))
  }

  function Merge(existing: string, block: string, marker: string): Result<string, MergeError> {
    match StripBlock(existing, marker)
    case Err(e) => Err(e)
    case Ok(stripped) => Ok(CoreOf(stripped) + "\n\n" + block)
  }
}
