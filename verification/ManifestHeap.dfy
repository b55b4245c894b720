/** The bounded newest manifests, kept in a heap while the run directories stream by. */
module ManifestHeap {
  import opened Wrappers
  import opened Ordering

  const FILE_LIMIT := 32

  /** A path is ordered by its components. */
  datatype Candidate = Candidate(mtime: int, name: string, path: seq<string>)

  predicate PathLe(a: seq<string>, b: seq<string>) {
    a == [] || (b != [] && (if a[0] == b[0] then PathLe(a[1..], b[1..]) else TextLe(a[0], b[0])))
  }

  predicate CandidateLe(a: Candidate, b: Candidate) {
    if a.mtime != b.mtime then a.mtime < b.mtime
    else if a.name != b.name then TextLe(a.name, b.name)
    else PathLe(a.path, b.path)
  }

  lemma {:induction false} PathTotal(a: seq<string>, b: seq<string>)
    ensures PathLe(a, b) || PathLe(b, a)
    ensures PathLe(a, b) && PathLe(b, a) ==> a == b
  {
    if a != [] && b != [] {
      TextTotal(a[0], b[0]);
      if a[0] == b[0] {
        PathTotal(a[1..], b[1..]);
        assert a == [a[0]] + a[1..] && b == [b[0]] + b[1..];
      }
    }
  }

  lemma {:induction false} PathTransitive(a: seq<string>, b: seq<string>, c: seq<string>)
    requires PathLe(a, b) && PathLe(b, c)
    ensures PathLe(a, c)
  {
    if a != [] {
      if a[0] == b[0] == c[0] {
        PathTransitive(a[1..], b[1..], c[1..]);
      } else if a[0] != b[0] && b[0] != c[0] {
        TextTransitive(a[0], b[0], c[0]);
        TextTotal(a[0], b[0]);
      }
    }
  }

  lemma {:induction false} CandidateOrder()
    ensures TotalOrder(CandidateLe)
  {
    forall a, b
      ensures (CandidateLe(a, b) || CandidateLe(b, a)) && (CandidateLe(a, b) && CandidateLe(b, a) ==> a == b)
    {
      TextTotal(a.name, b.name);
      PathTotal(a.path, b.path);
    }
    forall a, b, c | CandidateLe(a, b) && CandidateLe(b, c) ensures CandidateLe(a, c) {
      if a.mtime == b.mtime == c.mtime {
        TextTotal(a.name, b.name);
        if a.name == b.name == c.name {
          PathTransitive(a.path, b.path, c.path);
        } else if a.name != b.name && b.name != c.name {
          TextTransitive(a.name, b.name, c.name);
        }
      }
    }
  }

  // ----- the heap -----

  method Push(heap: seq<Candidate>, candidate: Candidate) returns (grown: seq<Candidate>)
    ensures multiset(grown) == multiset(heap) + multiset{candidate}
  {
    grown := heap + [candidate];
  }

  /** Takes out a least candidate. */
  method Pop(heap: seq<Candidate>) returns (rest: seq<Candidate>, least: Candidate)
    requires heap != []
    ensures multiset(heap) == multiset(rest) + multiset{least}
    ensures forall c :: c in heap ==> CandidateLe(least, c)
  {
    CandidateOrder();
    hide CandidateLe;
    var at := 0;
    for i := 1 to |heap|
      invariant 0 <= at < i
      invariant forall j :: 0 <= j < i ==> CandidateLe(heap[at], heap[j])
    {
      if !CandidateLe(heap[at], heap[i]) {
        at := i;
      }
    }
    least := heap[at];
    rest := heap[..at] + heap[at + 1..];
    assert heap == heap[..at] + [least] + heap[at + 1..];
  }

  // ----- the bounded newest -----

  /** The last `limit` candidates in ascending order. */
  function Newest(candidates: seq<Candidate>, limit: nat): seq<Candidate> {
    var sorted := Sort(candidates, CandidateLe);
    if |sorted| <= limit then sorted else sorted[|sorted| - limit..]
  }

  /** Unsafe run directories give no candidate. */
  function Safe(listing: seq<Option<Candidate>>): seq<Candidate> {
    if listing == [] then []
    else
      var last := listing[|listing| - 1];
      Safe(listing[..|listing| - 1]) + (if last.None? then [] else [last.value])
  }

  function Paths(candidates: seq<Candidate>): seq<seq<string>> {
    seq(|candidates|, i requires 0 <= i < |candidates| => candidates[i].path)
  }

  /** The listing is None when the directory is unsafe or reading it fails. */
  method ManifestPaths(listing: Option<seq<Option<Candidate>>>) returns (paths: seq<seq<string>>)
    ensures listing.None? ==> paths == []
    ensures listing.Some? ==> paths == Paths(Newest(Safe(listing.value), FILE_LIMIT))
  {
    if listing.None? {
      return [];
    }
    var runs := listing.value;
    var heap: seq<Candidate> := [];
    ghost var dropped: seq<Candidate> := [];
    assert Split(Safe(runs[..0]), heap, dropped);
    hide *;
    for i := 0 to |runs|
      invariant Split(Safe(runs[..i]), heap, dropped)
    {
      SafeNext(runs, i);
      if runs[i].Some? {
        ghost var before := heap;
        heap := Push(heap, runs[i].value);
        GrownByOne(before, runs[i].value, heap);
        if |heap| > FILE_LIMIT {
          ghost var full := heap;
          var least;
          heap, least := Pop(heap);
          GrownByOne(heap, least, full);
          SplitAfterPop(Safe(runs[..i]), runs[i].value, before, full, heap, least, dropped);
          dropped := dropped + [least];
        } else {
          SplitAfterPush(Safe(runs[..i]), runs[i].value, before, heap, dropped);
        }
      }
    }
    assert runs[..|runs|] == runs;
    NewestIs(Safe(runs), heap, dropped);
    return Paths(Sort(heap, CandidateLe));
  }

  lemma {:induction false} SafeNext(listing: seq<Option<Candidate>>, i: nat)
    requires i < |listing|
    ensures Safe(listing[..i + 1]) == Safe(listing[..i]) + if listing[i].None? then [] else [listing[i].value]
  {
    assert listing[..i + 1][..i] == listing[..i];
  }

  lemma {:induction false} GrownByOne(before: seq<Candidate>, candidate: Candidate, after: seq<Candidate>)
    requires multiset(after) == multiset(before) + multiset{candidate}
    ensures |after| == |before| + 1
  {
    assert |after| == |multiset(after)| && |before| == |multiset(before)|;
  }

  ghost predicate Below(dropped: seq<Candidate>, heap: seq<Candidate>) {
    forall d, h :: d in dropped && h in heap ==> CandidateLe(d, h)
  }

  /** What was seen splits into a bounded heap and the dropped ones, none of them above the heap. */
  ghost predicate Split(all: seq<Candidate>, heap: seq<Candidate>, dropped: seq<Candidate>) {
    && multiset(all) == multiset(heap) + multiset(dropped)
    && |heap| <= FILE_LIMIT && (dropped != [] ==> |heap| == FILE_LIMIT)
    && Below(dropped, heap)
  }

  lemma {:induction false} SplitAfterPush(
    all: seq<Candidate>, candidate: Candidate, before: seq<Candidate>, heap: seq<Candidate>, dropped: seq<Candidate>)
    requires Split(all, before, dropped)
    requires multiset(heap) == multiset(before) + multiset{candidate} && |heap| <= FILE_LIMIT
    ensures Split(all + [candidate], heap, dropped)
  {
    GrownByOne(before, candidate, heap);
    assert dropped == [];
  }

  lemma {:induction false} Regroup<T>(a: multiset<T>, b: multiset<T>, c: multiset<T>, d: multiset<T>, e: multiset<T>)
    requires a + b == c + d
    ensures (a + e) + b == c + (e + d)
  {
    forall x: T ensures ((a + e) + b)[x] == (c + (e + d))[x] {
      assert (a + b)[x] == (c + d)[x];
    }
  }

  lemma {:induction false} SplitAfterPop(
    all: seq<Candidate>, candidate: Candidate, before: seq<Candidate>, full: seq<Candidate>, heap: seq<Candidate>,
    least: Candidate, dropped: seq<Candidate>)
    requires Split(all, before, dropped)
    requires multiset(full) == multiset(before) + multiset{candidate} && |full| > FILE_LIMIT
    requires multiset(full) == multiset(heap) + multiset{least}
    requires forall c :: c in full ==> CandidateLe(least, c)
    ensures Split(all + [candidate], heap, dropped + [least])
  {
    GrownByOne(before, candidate, full);
    GrownByOne(heap, least, full);
    hide CandidateLe;
    assert multiset(all + [candidate]) == multiset(all) + multiset{candidate};
    assert multiset(dropped + [least]) == multiset(dropped) + multiset{least};
    Regroup(multiset(before), multiset{candidate}, multiset(heap), multiset{least}, multiset(dropped));
    assert multiset(all + [candidate]) == (multiset(before) + multiset(dropped)) + multiset{candidate};
    forall d, h | d in dropped + [least] && h in heap ensures CandidateLe(d, h) {
      assert h in multiset(full);
      assert h in full;
      if d in dropped {
        BelowNewcomer(candidate, before, full, heap, least, dropped, d, h);
      }
    }
  }

  /** A newcomer left in the heap is no less than the one taken out, which came from above the dropped ones. */
  lemma {:induction false} BelowNewcomer(
    candidate: Candidate, before: seq<Candidate>, full: seq<Candidate>, heap: seq<Candidate>,
    least: Candidate, dropped: seq<Candidate>, d: Candidate, h: Candidate)
    requires multiset(full) == multiset(before) + multiset{candidate} == multiset(heap) + multiset{least}
    requires Below(dropped, before) && d in dropped && h in heap && CandidateLe(least, h)
    ensures CandidateLe(d, h)
  {
    if h !in before {
      CandidateOrder();
      hide CandidateLe;
      var all := multiset(full);
      assert all[h] == multiset(before)[h] + multiset{candidate}[h] == multiset(heap)[h] + multiset{least}[h];
      assert all[least] == multiset(before)[least] + multiset{candidate}[least];
      assert least in before;
    }
  }

  /** Any such split keeps the newest. */
  lemma {:induction false} NewestIs(all: seq<Candidate>, heap: seq<Candidate>, dropped: seq<Candidate>)
    requires Split(all, heap, dropped)
    ensures Sort(heap, CandidateLe) == Newest(all, FILE_LIMIT)
  {
    hide CandidateLe, TotalPreorder;
    CandidateOrder();
    var low, high := Sort(dropped, CandidateLe), Sort(heap, CandidateLe);
    SortSorts(dropped, CandidateLe);
    SortSorts(heap, CandidateLe);
    SortSorts(all, CandidateLe);
    forall d, h | d in low && h in high ensures CandidateLe(d, h) {
      SortMembers(dropped, CandidateLe, d);
      SortMembers(heap, CandidateLe, h);
    }
    SortedAppend(low, high);
    SortedUnique(Sort(all, CandidateLe), low + high, CandidateLe);
    if dropped == [] {
      assert low + high == high;
    } else {
      assert (low + high)[|low|..] == high;
    }
  }

  lemma {:induction false} SortedAppend(low: seq<Candidate>, high: seq<Candidate>)
    requires Sorted(low, CandidateLe) && Sorted(high, CandidateLe) && Below(low, high)
    ensures Sorted(low + high, CandidateLe)
  {
  }

  /** The result does not depend on the order of the run directories. */
  lemma {:induction false} NewestInAnyOrder(candidates: seq<Candidate>, reordered: seq<Candidate>, limit: nat)
    requires multiset(candidates) == multiset(reordered)
    ensures Newest(candidates, limit) == Newest(reordered, limit)
  {
    hide CandidateLe, TotalPreorder, Sorted;
    CandidateOrder();
    SortSorts(candidates, CandidateLe);
    SortSorts(reordered, CandidateLe);
    SortedUnique(Sort(candidates, CandidateLe), Sort(reordered, CandidateLe), CandidateLe);
  }

  // ----- which paths these are -----

  predicate PartsDifferAt(a: seq<string>, b: seq<string>, k: nat) {
    k < |a| && k < |b| && a[..k] == b[..k] && a[k] != b[k]
  }

  /** The first component in which two paths differ decides, and a path follows the directories it is in. */
  ghost predicate PathPrecedes(a: seq<string>, b: seq<string>) {
    a < b || exists k: nat :: PartsDifferAt(a, b, k) && Precedes(a[k], b[k])
  }

  /** The older candidate comes first, of the same age the one with the smaller name, and then path. */
  ghost predicate ComesBefore(a: Candidate, b: Candidate) {
    || a.mtime < b.mtime
    || (a.mtime == b.mtime && Precedes(a.name, b.name))
    || (a.mtime == b.mtime && a.name == b.name && PathPrecedes(a.path, b.path))
  }

  lemma {:induction false} PartsDifferLater(a: seq<string>, b: seq<string>, k: nat)
    requires a != [] && b != [] && a[0] == b[0]
    ensures PartsDifferAt(a, b, k + 1) <==> PartsDifferAt(a[1..], b[1..], k)
    ensures !PartsDifferAt(a, b, 0) && (a < b <==> a[1..] < b[1..])
  {
    assert a == [a[0]] + a[1..] && b == [b[0]] + b[1..];
    if k + 1 < |a| && k + 1 < |b| {
      assert a[..k + 1] == [a[0]] + a[1..][..k] && b[..k + 1] == [b[0]] + b[1..][..k];
      assert a[1..][..k] == a[..k + 1][1..] && b[1..][..k] == b[..k + 1][1..];
    }
  }

  lemma {:induction false} PartsDifferFirst(a: seq<string>, b: seq<string>, k: nat)
    requires a != [] && b != [] && a[0] != b[0]
    ensures PartsDifferAt(a, b, k) <==> k == 0
    ensures !(a < b)
  {
    if 0 < k < |a| && k < |b| {
      assert a[..k][0] == a[0] && b[..k][0] == b[0];
    }
  }

  lemma {:induction false} PathLeIff(a: seq<string>, b: seq<string>)
    ensures PathLe(a, b) <==> a == b || PathPrecedes(a, b)
  {
    hide TextLe, Precedes;
    if a != [] && b != [] && a[0] == b[0] {
      PathLeIff(a[1..], b[1..]);
      assert a == b <==> a[1..] == b[1..] by {
        assert a == [a[0]] + a[1..] && b == [b[0]] + b[1..];
      }
      PartsDifferLater(a, b, 0);
      hide PartsDifferAt;
      if k: nat :| PartsDifferAt(a[1..], b[1..], k) && Precedes(a[1..][k], b[1..][k]) {
        PartsDifferLater(a, b, k);
        assert PartsDifferAt(a, b, k + 1) && Precedes(a[k + 1], b[k + 1]);
      }
      if k: nat :| PartsDifferAt(a, b, k) && Precedes(a[k], b[k]) {
        PartsDifferLater(a, b, k - 1);
        assert PartsDifferAt(a[1..], b[1..], k - 1) && Precedes(a[1..][k - 1], b[1..][k - 1]);
      }
    } else if a != [] && b != [] {
      TextLeIff(a[0], b[0]);
      PartsDifferFirst(a, b, 0);
      forall k: nat | PartsDifferAt(a, b, k) ensures k == 0 {
        PartsDifferFirst(a, b, k);
      }
    }
  }

  lemma {:induction false} CandidateLeIff(a: Candidate, b: Candidate)
    ensures CandidateLe(a, b) <==> a == b || ComesBefore(a, b)
  {
    TextLeIff(a.name, b.name);
    PathLeIff(a.path, b.path);
    NotBeforeItself(a.name);
    hide TextLe, PathLe, Precedes, PathPrecedes;
  }

  lemma {:induction false} NotBeforeItself(name: string)
    ensures !Precedes(name, name)
  {
  }

  ghost predicate NoneBefore(later: seq<Candidate>, earlier: seq<Candidate>) {
    forall l, e :: l in later && e in earlier ==> e == l || ComesBefore(e, l)
  }

  ghost predicate InOrder(candidates: seq<Candidate>) {
    forall i, j :: 0 <= i < j < |candidates| ==>
      candidates[i] == candidates[j] || ComesBefore(candidates[i], candidates[j])
  }

  lemma {:induction false} SplitInOrder(sorted: seq<Candidate>, cut: nat)
    requires Sorted(sorted, CandidateLe) && cut <= |sorted|
    ensures InOrder(sorted[cut..]) && NoneBefore(sorted[cut..], sorted[..cut])
  {
    hide CandidateLe, ComesBefore;
    var kept, dropped := sorted[cut..], sorted[..cut];
    forall i, j | 0 <= i < j < |kept| ensures kept[i] == kept[j] || ComesBefore(kept[i], kept[j]) {
      CandidateLeIff(sorted[cut + i], sorted[cut + j]);
    }
    forall k, d | k in kept && d in dropped ensures d == k || ComesBefore(d, k) {
      var i :| 0 <= i < |dropped| && dropped[i] == d;
      var j :| 0 <= j < |kept| && kept[j] == k;
      CandidateLeIff(sorted[i], sorted[cut + j]);
    }
  }

  /** The kept candidates are the last ones in order, and none of those left out comes after any of them. */
  lemma {:induction false} NewestAre(candidates: seq<Candidate>, limit: nat)
    returns (kept: seq<Candidate>, dropped: seq<Candidate>)
    ensures kept == Newest(candidates, limit) && multiset(candidates) == multiset(kept) + multiset(dropped)
    ensures |kept| <= limit && (dropped != [] ==> |kept| == limit)
    ensures InOrder(kept) && NoneBefore(kept, dropped)
  {
    hide *;
    CandidatesSort(candidates);
    var sorted := Sort(candidates, CandidateLe);
    var cut := if |sorted| <= limit then 0 else |sorted| - limit;
    kept, dropped := sorted[cut..], sorted[..cut];
    assert sorted == dropped + kept;
    SplitInOrder(sorted, cut);
    NewestIsKept(candidates, limit, kept, cut);
  }

  lemma {:induction false} CandidatesSort(candidates: seq<Candidate>)
    ensures Sorted(Sort(candidates, CandidateLe), CandidateLe)
  {
    CandidateOrder();
    hide CandidateLe, Sorted, TotalPreorder;
    SortSorts(candidates, CandidateLe);
  }

  /** No candidate left out is newer than a kept one. */
  lemma {:induction false} OlderLeftOut(candidates: seq<Candidate>, limit: nat, dropped: Candidate)
    requires dropped in candidates && dropped !in Newest(candidates, limit)
    ensures forall k :: k in Newest(candidates, limit) ==> dropped.mtime <= k.mtime
  {
    hide Newest;
    var kept, left := NewestAre(candidates, limit);
    assert dropped in multiset(candidates) && dropped !in multiset(kept);
    assert dropped in multiset(left);
    assert dropped in left;
  }

  lemma {:induction false} NewestIsKept(candidates: seq<Candidate>, limit: nat, kept: seq<Candidate>, cut: nat)
    requires var sorted := Sort(candidates, CandidateLe);
             cut == (if |sorted| <= limit then 0 else |sorted| - limit) && kept == sorted[cut..]
    ensures kept == Newest(candidates, limit)
  {
  }

  function PlacesOf(listing: seq<Option<Candidate>>, candidate: Candidate): set<nat> {
    set i: nat | i < |listing| && listing[i] == Some(candidate)
  }

  lemma {:induction false} SafeCounts(listing: seq<Option<Candidate>>, candidate: Candidate)
    ensures multiset(Safe(listing))[candidate] == |PlacesOf(listing, candidate)|
  {
    if listing != [] {
      var n := |listing| - 1;
      var init := listing[..n];
      SafeCounts(init, candidate);
      assert PlacesOf(listing, candidate)
          == PlacesOf(init, candidate) + (if listing[n] == Some(candidate) then {n} else {});
    }
  }

  /**
   The manifest paths of a listing: at most 32, those of the newest safe run directories in ascending
   order of time, name and path, each as often as it is listed, and only the older ones left out.
   */
  lemma {:induction false} ManifestPathsAre(listing: seq<Option<Candidate>>)
    returns (kept: seq<Candidate>, dropped: seq<Candidate>)
    ensures var paths := Paths(Newest(Safe(listing), FILE_LIMIT));
            |paths| == |kept| && forall i :: 0 <= i < |kept| ==> paths[i] == kept[i].path
    ensures forall c :: multiset(kept)[c] + multiset(dropped)[c] == |PlacesOf(listing, c)|
    ensures |kept| <= 32 && (dropped != [] ==> |kept| == 32)
    ensures InOrder(kept) && NoneBefore(kept, dropped)
  {
    kept, dropped := NewestAre(Safe(listing), FILE_LIMIT);
    hide InOrder, NoneBefore, Newest, Safe, PlacesOf;
    forall c ensures multiset(kept)[c] + multiset(dropped)[c] == |PlacesOf(listing, c)| {
      SafeCounts(listing, c);
      assert multiset(Safe(listing))[c] == multiset(kept)[c] + multiset(dropped)[c];
    }
  }
}
