/** What compression answers: the lines of an extract, the draft of each backend, and every field of the result. */
module CompressionAnswers {
  import opened Wrappers
  import opened Text
  import opened Compression

  ghost predicate Mentions(terms: seq<string>, text: string) {
    exists t :: t in terms && Contains(text, t)
  }

  lemma {:induction false} MentionsIff(terms: seq<string>, text: string)
    ensures HasTerm(terms, text) <==> Mentions(terms, text)
    ensures HasAllTerms(terms, text) <==> forall t :: t in terms ==> Contains(text, t)
  {
    hide Contains;
    if t :| t in terms && Contains(text, t) {
      var i :| 0 <= i < |terms| && terms[i] == t;
      assert Contains(text, terms[i]);
    }
    if HasAllTerms(terms, text) {
      forall t | t in terms ensures Contains(text, t) {
        var i :| 0 <= i < |terms| && terms[i] == t;
        assert Contains(text, terms[i]);
      }
    }
  }

  // ----- the lines of an extract -----

  predicate Rising(places: seq<nat>, from: nat, to: nat) {
    && (forall i :: 0 <= i < |places| ==> from <= places[i] < to)
    && (forall i, j :: 0 <= i < j < |places| ==> places[i] < places[j])
  }

  function TextsAt(lines: seq<string>, places: seq<nat>): (texts: seq<string>)
    requires Rising(places, 0, |lines|)
    ensures |texts| == |places| && forall i :: 0 <= i < |places| ==> texts[i] == lines[places[i]]
  {
    seq(|places|, i requires 0 <= i < |places| => lines[places[i]])
  }

  /** A line that must be kept: it is not blank and holds a preserve term. */
  ghost predicate MustKeep(line: string, terms: seq<string>) {
    Strip(line) != "" && Mentions(terms, line)
  }

  /** A line that may fill up: it is not blank, not one of the kept texts, and holds no forbidden term. */
  ghost predicate MayFill(line: string, kept: seq<string>, forbidden: seq<string>) {
    Strip(line) != "" && line !in kept && !Mentions(forbidden, line)
  }

  lemma {:induction false} FirstKept(line: string, rest: seq<string>, terms: seq<string>)
    ensures WithTerm(NonBlank([line] + rest), terms)
            == (if MustKeep(line, terms) then [line] else []) + WithTerm(NonBlank(rest), terms)
  {
    MentionsIff(terms, line);
    hide Strip, HasTerm, Mentions;
    var nonBlank := NonBlank(rest);
    assert ([line] + rest)[1..] == rest && ([line] + nonBlank)[1..] == nonBlank;
    assert [] + nonBlank == nonBlank && [] + WithTerm(nonBlank, terms) == WithTerm(nonBlank, terms);
  }

  lemma {:induction false} FirstAble(line: string, rest: seq<string>, kept: seq<string>, forbidden: seq<string>)
    ensures Eligible(NonBlank([line] + rest), kept, forbidden)
            == (if MayFill(line, kept, forbidden) then [line] else []) + Eligible(NonBlank(rest), kept, forbidden)
  {
    MentionsIff(forbidden, line);
    hide Strip, HasTerm, Mentions;
    var nonBlank := NonBlank(rest);
    assert ([line] + rest)[1..] == rest && ([line] + nonBlank)[1..] == nonBlank;
    assert [] + nonBlank == nonBlank;
    assert [] + Eligible(nonBlank, kept, forbidden) == Eligible(nonBlank, kept, forbidden);
  }

  lemma {:induction false} OneMorePlace(lines: seq<string>, i: nat, rest: seq<nat>)
    requires i < |lines| && Rising(rest, i + 1, |lines|)
    ensures Rising(rest, 0, |lines|) && Rising([i] + rest, i, |lines|) && Rising([i] + rest, 0, |lines|)
    ensures TextsAt(lines, [i] + rest) == [lines[i]] + TextsAt(lines, rest)
  {
  }

  lemma {:induction false} NoPlaces(lines: seq<string>)
    ensures Rising([], |lines|, |lines|) && Rising([], 0, |lines|) && TextsAt(lines, []) == []
  {
  }

  lemma {:induction false} NothingChosen(lines: seq<string>, kept: seq<string>, terms: seq<string>)
    ensures WithTerm(NonBlank(lines[|lines|..]), terms) == [] == Eligible(NonBlank(lines[|lines|..]), kept, terms)
  {
  }

  lemma {:induction false} KeptPlaces(lines: seq<string>, i: nat, terms: seq<string>) returns (places: seq<nat>)
    requires i <= |lines|
    ensures Rising(places, i, |lines|) && Rising(places, 0, |lines|)
    ensures TextsAt(lines, places) == WithTerm(NonBlank(lines[i..]), terms)
    ensures forall j :: j in places <==> i <= j < |lines| && MustKeep(lines[j], terms)
    decreases |lines| - i
  {
    hide *;
    NoPlaces(lines);
    NothingChosen(lines, [], terms);
    places := [];
    if i < |lines| {
      var line := lines[i];
      var rest := KeptPlaces(lines, i + 1, terms);
      assert lines[i..] == [line] + lines[i + 1..];
      FirstKept(line, lines[i + 1..], terms);
      RisingFrom(rest, i, |lines|);
      if MustKeep(line, terms) {
        OneMorePlace(lines, i, rest);
        places := [i] + rest;
      } else {
        places := rest;
        assert [] + TextsAt(lines, rest) == TextsAt(lines, rest);
      }
    }
  }

  lemma {:induction false} RisingFrom(places: seq<nat>, i: nat, to: nat)
    requires Rising(places, i + 1, to)
    ensures Rising(places, i, to)
  {
  }

  lemma {:induction false} AblePlaces(lines: seq<string>, i: nat, kept: seq<string>, forbidden: seq<string>)
    returns (places: seq<nat>)
    requires i <= |lines|
    ensures Rising(places, i, |lines|) && Rising(places, 0, |lines|)
    ensures TextsAt(lines, places) == Eligible(NonBlank(lines[i..]), kept, forbidden)
    ensures forall j :: j in places <==> i <= j < |lines| && MayFill(lines[j], kept, forbidden)
    decreases |lines| - i
  {
    hide *;
    NoPlaces(lines);
    NothingChosen(lines, kept, forbidden);
    places := [];
    if i < |lines| {
      var line := lines[i];
      var rest := AblePlaces(lines, i + 1, kept, forbidden);
      assert lines[i..] == [line] + lines[i + 1..];
      FirstAble(line, lines[i + 1..], kept, forbidden);
      RisingFrom(rest, i, |lines|);
      if MayFill(line, kept, forbidden) {
        OneMorePlace(lines, i, rest);
        places := [i] + rest;
      } else {
        places := rest;
        assert [] + TextsAt(lines, rest) == TextsAt(lines, rest);
      }
    }
  }

  /**
   An extract is made of the lines that must be kept, in order, followed by the first of the lines that
   may fill up, in order and as many as fit with the kept ones; it is stripped at both ends.
   */
  lemma {:induction false} ExtractIs(r: Request) returns (kept: seq<nat>, able: seq<nat>, n: nat)
    ensures var lines := SplitLines(r.content);
            && Rising(kept, 0, |lines|) && Rising(able, 0, |lines|) && n <= |able|
            && (forall j :: j in kept <==> 0 <= j < |lines| && MustKeep(lines[j], r.preserve))
            && (forall j :: j in able
                  <==> 0 <= j < |lines| && MayFill(lines[j], TextsAt(lines, kept), r.forbidden))
            && var front, more := Join(TextsAt(lines, kept)), TextsAt(lines, able);
            && ExtractiveContent(r) == Strip(Join(TextsAt(lines, kept) + more[..n]))
            && (n > 0 ==> |front| + |Join(more[..n])| <= r.target)
            && (n < |able| ==> |front| + |Join(more[..n + 1])| > r.target)
  {
    var lines := SplitLines(r.content);
    assert lines[0..] == lines;
    kept := KeptPlaces(lines, 0, r.preserve);
    able := AblePlaces(lines, 0, TextsAt(lines, kept), r.forbidden);
    var more := TextsAt(lines, able);
    var room := Remaining(r.target, PreserveLines(r));
    FillIsLongest(more, room);
    n := |Fill(more, room)|;
    hide SplitLines, Join, Strip, MustKeep, MayFill, Rising, Fill, WithTerm, NonBlank, Eligible;
    assert PreserveLines(r) == TextsAt(lines, kept) && Filler(r) == Fill(more, room) == more[..n];
  }

  // ----- the result -----

  /** What a backend makes of the content; truncation keeps a prefix, no longer than the target. */
  predicate IsDraft(r: Request, backend: Backend, headroom: Result<string, CompressionError>, draft: string) {
    match backend
    case NoBackend => draft == r.content
    case Truncate => draft <= r.content && |draft| <= r.target && (|draft| < |r.content| ==> |draft| == r.target)
    case Extractive => draft == ExtractiveContent(r)
    case Headroom => headroom == Ok(draft)
    case Unknown => false
  }

  /** The result for a text: the two lengths, whether the facts are there, and what it warns about. */
  ghost predicate ResultIs(c: Compressed, r: Request, text: string, backend: Backend) {
    && c.content == text && c.backend == backend && c.originalChars == |r.content| && c.compressedChars == |text|
    && (c.factsPreserved <==> forall t :: t in r.preserve ==> Contains(text, t))
    && (OverTarget in c.warnings <==> backend == Extractive && |text| > r.target)
    && (OverTarget in c.warnings ==> c.warnings[0] == OverTarget)
    && (ForbiddenSurvives in c.warnings <==> Mentions(r.forbidden, text))
    && (forall i, j :: 0 <= i < j < |c.warnings| ==> c.warnings[i] != c.warnings[j])
  }

  lemma {:induction false} ResultForIs(r: Request, text: string, backend: Backend)
    requires backend != Extractive
    ensures ResultIs(ResultFor(r, text, backend, ForbiddenWarnings(r, text)), r, text, backend)
    ensures forall b :: FellBack(b) !in ResultFor(r, text, backend, ForbiddenWarnings(r, text)).warnings
  {
    MentionsIff(r.preserve, text);
    MentionsIff(r.forbidden, text);
    hide HasTerm, HasAllTerms, Mentions;
  }

  lemma {:induction false} ExtractResultIs(r: Request)
    ensures ResultIs(ExtractiveCompress(r), r, ExtractiveContent(r), Extractive)
    ensures forall b :: FellBack(b) !in ExtractiveCompress(r).warnings
  {
    MentionsIff(r.preserve, ExtractiveContent(r));
    MentionsIff(r.forbidden, ExtractiveContent(r));
    hide HasTerm, HasAllTerms, Mentions, ExtractiveContent;
  }

  lemma {:induction false} FallbackIs(r: Request, backend: Backend)
    ensures var c := ExtractiveCompress(r);
            ResultIs(c.(warnings := c.warnings + [FellBack(backend)]), r, ExtractiveContent(r), Extractive)
  {
    ExtractResultIs(r);
    hide ExtractiveContent, ExtractiveCompress, Mentions;
  }

  /** Compression fails on an unknown backend, or as the optional dependency does. */
  lemma {:induction false} CompressFailsIff(
    r: Request, backend: Backend, headroom: Result<string, CompressionError>, e: CompressionError)
    ensures Compress(r, backend, headroom) == Err(e)
      <==> (backend == Unknown && e == UnknownBackend) || (backend == Headroom && headroom == Err(e))
  {
    hide ExtractiveCompress, TruncateCompress, ResultFor;
  }

  /**
   The answer is the draft of the backend if it holds every preserve term or is the extract itself;
   otherwise it is the extract, with a last warning that names the backend it stands in for.
   */
  lemma {:induction false} CompressIs(
    r: Request, backend: Backend, headroom: Result<string, CompressionError>, draft: string)
    requires IsDraft(r, backend, headroom, draft)
    ensures Compress(r, backend, headroom).Ok?
    ensures var c := Compress(r, backend, headroom).value;
            if backend == Extractive || forall t :: t in r.preserve ==> Contains(draft, t) then
              ResultIs(c, r, draft, backend) && forall b :: FellBack(b) !in c.warnings
            else
              && ResultIs(c, r, ExtractiveContent(r), Extractive)
              && c.warnings != [] && c.warnings[|c.warnings| - 1] == FellBack(backend)
              && forall b :: FellBack(b) in c.warnings ==> b == backend
  {
    ExtractResultIs(r);
    FallbackIs(r, backend);
    if backend != Extractive {
      ResultForIs(r, draft, backend);
    }
    if backend == Truncate {
      TruncatedDraft(r, draft);
    }
    hide ExtractiveContent, ExtractiveCompress, ResultFor, ForbiddenWarnings, Contains, Mentions;
  }

  lemma {:induction false} TruncatedDraft(r: Request, draft: string)
    requires draft <= r.content && |draft| <= r.target && (|draft| < |r.content| ==> |draft| == r.target)
    ensures TruncateCompress(r) == ResultFor(r, draft, Truncate, ForbiddenWarnings(r, draft))
  {
    assert draft == r.content[..|draft|] && r.content[..|r.content|] == r.content;
    hide ResultFor, ForbiddenWarnings;
  }
}
