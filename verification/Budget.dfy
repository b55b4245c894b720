/** Text bounded by a number of characters and an optional number of lines. */
module Budget {
  import opened Wrappers
  import opened Text

  datatype Bounded = Bounded(
    text: string, originalChars: nat, originalLines: nat, truncated: bool, omittedChars: nat, omittedLines: nat)

  /** The lines of a text, each with its line break. */
  function SplitKeep(s: string): seq<string>
    decreases |s|
  {
    if s == "" then []
    else
      var k := BreakAt(s);
      if k == |s| then [s] else [s[..k + BreakLength(s, k)]] + SplitKeep(s[k + BreakLength(s, k)..])
  }

  function Concat(parts: seq<string>): string {
    if parts == [] then "" else parts[0] + Concat(parts[1..])
  }

  function First(lines: seq<string>, m: nat): seq<string> {
    if m < |lines| then lines[..m] else lines
  }

  function CountLines(text: string): nat {
    |SplitLines(text)|
  }

  function ApplyLineLimit(text: string, maxLines: Option<nat>): string {
    match maxLines
    case None => text
    case Some(m) =>
      Concat(First(SplitKeep(text), m))
  }

  function BoundText(text: string, maxChars: nat, maxLines: Option<nat>): Bounded
  {
    var limited := ApplyLineLimit(text, maxLines);
    var bounded := if |limited| > maxChars then limited[..maxChars] else limited;
    LimitIsPrefix(text, maxLines);
    var omittedLines := CountLines(text) - CountLines(bounded);
    var omitted := if omittedLines > 0 then omittedLines else 0;
    Bounded(bounded, |text|, CountLines(text), |text| - |bounded| > 0 || omitted > 0, |text| - |bounded|, omitted)
  }

  // ----- lines of a prefix -----

  /** Where the first `m` lines end. */
  function EndOfLines(s: string, m: nat): (e: nat)
    ensures e <= |s|
    decreases m
  {
    if s == "" || m == 0 then 0
    else
      var k := BreakAt(s);
      if k == |s| then |s| else k + BreakLength(s, k) + EndOfLines(s[k + BreakLength(s, k)..], m - 1)
  }

  lemma {:induction false} FirstMore(line: string, rest: seq<string>, m: nat)
    requires m > 0
    ensures First([line] + rest, m) == [line] + First(rest, m - 1)
    ensures Concat([line] + First(rest, m - 1)) == line + Concat(First(rest, m - 1))
  {
  }

  lemma {:induction false} TakeMore(s: string, n: nat, e: nat)
    requires n <= |s| && e <= |s| - n
    ensures s[..n] + s[n..][..e] == s[..n + e]
  {
  }

  lemma {:induction false} KeepMore(s: string, m: nat)
    requires BreakAt(s) < |s|
    ensures var n := BreakAt(s) + BreakLength(s, BreakAt(s));
            SplitKeep(s) == [s[..n]] + SplitKeep(s[n..])
    ensures m > 0 ==>
              var n := BreakAt(s) + BreakLength(s, BreakAt(s));
              EndOfLines(s, m) == n + EndOfLines(s[n..], m - 1)
  {
  }

  lemma {:induction false} KeepNone(s: string, m: nat)
    requires s == "" || m == 0
    ensures Concat(First(SplitKeep(s), m)) == "" && EndOfLines(s, m) == 0
  {
  }

  lemma {:induction false} KeepLast(s: string, m: nat)
    requires s != "" && m > 0 && BreakAt(s) == |s|
    ensures Concat(First(SplitKeep(s), m)) == s && EndOfLines(s, m) == |s|
  {
  }

  /** The first lines with their breaks are a prefix of the text. */
  lemma {:induction false} ConcatTake(s: string, m: nat)
    ensures Concat(First(SplitKeep(s), m)) == s[..EndOfLines(s, m)]
    decreases m
  {
    hide *;
    if s == "" || m == 0 {
      KeepNone(s, m);
    } else {
      var k := BreakAt(s);
      if k < |s| {
        var n := k + BreakLength(s, k);
        KeepMore(s, m);
        ConcatTake(s[n..], m - 1);
        FirstMore(s[..n], SplitKeep(s[n..]), m);
        TakeMore(s, n, EndOfLines(s[n..], m - 1));
      } else {
        KeepLast(s, m);
        assert s[..|s|] == s;
      }
    }
  }

  lemma {:induction false} LimitIsPrefix(text: string, maxLines: Option<nat>)
    ensures ApplyLineLimit(text, maxLines) <= text
  {
    if maxLines.Some? {
      ConcatTake(text, maxLines.value);
    }
  }

  /** The lines of a prefix: one up to the end of the first line, and one more than those of the rest beyond it. */
  lemma {:induction false} PrefixLines(s: string, p: nat)
    requires 0 < p <= |s|
    ensures var k := BreakAt(s);
            if k == |s| || p <= k + BreakLength(s, k) then CountLines(s[..p]) == 1
            else CountLines(s[..p]) == 1 + CountLines(s[k + BreakLength(s, k)..][..p - k - BreakLength(s, k)])
  {
    hide IsBreak;
    var k := BreakAt(s);
    var t := s[..p];
    if p <= k {
      assert t[..p] == s[..k][..p];
      BreakAtUnique(t, p);
    } else {
      assert t[..k] == s[..k];
      BreakAtUnique(t, k);
      var n := BreakLength(t, k);
      if k + BreakLength(s, k) < p {
        assert t[k + n..] == s[k + n..][..p - k - n];
      }
    }
  }

  /** A prefix has at most `m` lines exactly when it ends no later than the first `m` lines do. */
  lemma {:induction false} AtMostLines(s: string, p: nat, m: nat)
    requires p <= |s|
    ensures CountLines(s[..p]) <= m <==> p <= EndOfLines(s, m)
    decreases m
  {
    hide IsBreak, BreakAt, SplitLines;
    if p > 0 {
      PrefixLines(s, p);
      var k := BreakAt(s);
      if m > 0 && k < |s| && k + BreakLength(s, k) < p {
        var n := k + BreakLength(s, k);
        AtMostLines(s[n..], p - n, m - 1);
      }
    }
  }

  /** A longer prefix has no fewer lines. */
  lemma {:induction false} LinesGrow(s: string, p: nat, q: nat)
    requires p <= q <= |s|
    ensures CountLines(s[..p]) <= CountLines(s[..q])
  {
    AtMostLines(s, q, CountLines(s[..q]));
    AtMostLines(s, p, CountLines(s[..q]));
  }

  // ----- bounding -----

  predicate Within(text: string, maxChars: nat, maxLines: Option<nat>) {
    |text| <= maxChars && (maxLines.Some? ==> CountLines(text) <= maxLines.value)
  }

  /** Bounding keeps the longest prefix within both limits. */
  lemma {:induction false} BoundIsLongest(text: string, maxChars: nat, maxLines: Option<nat>)
    ensures BoundText(text, maxChars, maxLines).text <= text
    ensures forall p :: 0 <= p <= |text| ==>
              (Within(text[..p], maxChars, maxLines) <==> p <= |BoundText(text, maxChars, maxLines).text|)
  {
    var kept := BoundText(text, maxChars, maxLines).text;
    LimitIsPrefix(text, maxLines);
    if maxLines.Some? {
      ConcatTake(text, maxLines.value);
      forall p | 0 <= p <= |text|
        ensures CountLines(text[..p]) <= maxLines.value <==> p <= EndOfLines(text, maxLines.value)
      {
        AtMostLines(text, p, maxLines.value);
      }
    }
    hide CountLines, SplitKeep, First, Concat, EndOfLines;
  }

  /**
   What is kept and what is omitted add up, in characters and in lines, and truncation is reported
   exactly when it happens.
   */
  lemma {:induction false} BoundAccounts(text: string, maxChars: nat, maxLines: Option<nat>)
    ensures var b := BoundText(text, maxChars, maxLines);
            && b.originalChars == |text| && |b.text| + b.omittedChars == |text|
            && b.originalLines == CountLines(text) && CountLines(b.text) + b.omittedLines == CountLines(text)
            && (b.truncated <==> b.text != text)
  {
    var kept := BoundText(text, maxChars, maxLines).text;
    LimitIsPrefix(text, maxLines);
    LinesGrow(text, |kept|, |text|);
    assert kept == text[..|kept|] && text[..|text|] == text;
    hide CountLines, ApplyLineLimit;
  }
}
