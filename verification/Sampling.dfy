/** Deterministic even sampling of the tracked paths, in exact rational arithmetic. */
module Sampling {
  import opened Ordering

  /** The quotient rounded to the nearest integer, halves to even. */
  function RoundHalfEven(p: nat, q: nat): nat
    requires q > 0
  {
    var k, r := p / q, p % q;
    if 2 * r < q then k else if 2 * r > q then k + 1 else if k % 2 == 0 then k else k + 1
  }

  /** Rounding is off by at most one half, and off by one half only to an even integer. */
  lemma {:induction false} RoundsToNearest(p: nat, q: nat)
    requires q > 0
    ensures var k := RoundHalfEven(p, q);
            && 2 * p - q <= 2 * (q * k) <= 2 * p + q
            && (2 * (q * k) == 2 * p + q || 2 * (q * k) == 2 * p - q ==> k % 2 == 0)
  {
    var k := p / q;
    assert p == q * k + p % q;
    assert q * (k + 1) == q * k + q;
  }

  /** The sampled index number `i` of `limit` out of `n`. */
  function Index(i: nat, limit: nat, n: nat): nat
    requires limit > 1 && n > 0
  {
    RoundHalfEven(i * (n - 1), limit - 1)
  }

  /** Consecutive sampled indexes rise, by within one of the exact step (n - 1) / (limit - 1). */
  lemma {:induction false} GapNearStep(i: nat, limit: nat, n: nat)
    requires 1 < limit < n
    ensures var gap := Index(i + 1, limit, n) - Index(i, limit, n);
            gap > 0 && (n - 1) - (limit - 1) <= (limit - 1) * gap <= (n - 1) + (limit - 1)
  {
    var p, q := i * (n - 1), limit - 1;
    assert (i + 1) * (n - 1) == p + (n - 1);
    RoundsToNearest(p, q);
    RoundsToNearest(p + (n - 1), q);
    GapBetween(q, RoundHalfEven(p, q), RoundHalfEven(p + (n - 1), q), p, n - 1);
  }

  lemma {:induction false} GapBetween(q: nat, j: nat, k: nat, p: nat, d: nat)
    requires 0 < q < d && 2 * p - q <= 2 * (q * j) <= 2 * p + q && 2 * (p + d) - q <= 2 * (q * k) <= 2 * (p + d) + q
    ensures k > j && d - q <= q * (k - j) <= d + q
  {
    assert q * (k - j) == q * k - q * j;
    if k <= j {
      MulMonotone(q, k, j);
    }
  }

  lemma {:induction false} MulMonotone(q: nat, a: int, b: int)
    requires a <= b
    ensures q * a <= q * b
  {
    assert q * (b - a) >= 0;
  }

  /** The sampled indexes run from the first element to the last. */
  lemma {:induction false} Ends(limit: nat, n: nat)
    requires 1 < limit < n
    ensures Index(0, limit, n) == 0 && Index(limit - 1, limit, n) == n - 1
  {
    var q := limit - 1;
    Exact(0, q);
    Exact(n - 1, q);
    assert (limit - 1) * (n - 1) == (n - 1) * q;
    assert 0 * (n - 1) == 0 * q;
  }

  lemma {:induction false} Exact(k: nat, q: nat)
    requires q > 0
    ensures RoundHalfEven(k * q, q) == k
  {
  }

  lemma {:induction false} IndexesRise(i: nat, j: nat, limit: nat, n: nat)
    requires 1 < limit < n && i <= j
    ensures Index(j, limit, n) >= Index(i, limit, n) + (j - i)
  {
    if i < j {
      IndexesRise(i, j - 1, limit, n);
      GapNearStep(j - 1, limit, n);
    }
  }

  // ----- sampling -----

  predicate IntLe(a: int, b: int) { a <= b }

  function RawIndexes(limit: nat, n: nat): seq<int>
    requires limit > 1 && n > 0
  {
    seq(limit, i requires 0 <= i => Index(i, limit, n))
  }

  /** All the rounded indexes, as a sorted set. */
  function Indexes(limit: nat, n: nat): seq<int>
    requires limit > 1 && n > 0
  {
    Distinct(Sort(RawIndexes(limit, n), IntLe))
  }

  /** The set holds exactly `limit` indexes, in order, all of them within range. */
  lemma {:induction false} IndexesExact(limit: nat, n: nat)
    requires 1 < limit < n
    ensures |Indexes(limit, n)| == limit
    ensures forall i :: 0 <= i < limit ==> Indexes(limit, n)[i] == Index(i, limit, n) < n
  {
    var raw := RawIndexes(limit, n);
    forall i, j | 0 <= i < j < limit ensures raw[i] < raw[j] {
      IndexesRise(i, j, limit, n);
    }
    forall i | 0 <= i < limit ensures raw[i] < n {
      IndexesRise(i, limit - 1, limit, n);
      Ends(limit, n);
    }
    hide Index, RawIndexes;
    SortOfSorted(raw, IntLe);
    DistinctKeeps(raw);
  }

  function Picked(paths: seq<string>, indexes: seq<int>): (picked: seq<string>)
    requires forall i :: 0 <= i < |indexes| ==> 0 <= indexes[i] < |paths|
    ensures |picked| == |indexes| && forall i :: 0 <= i < |indexes| ==> picked[i] == paths[indexes[i]]
  {
    seq(|indexes|, i requires 0 <= i < |indexes| => paths[indexes[i]])
  }

  /** Callers ask for at least one path. */
  function EvenSample(paths: seq<string>, limit: nat): seq<string>
    requires limit > 0
  {
    if |paths| <= limit then paths
    else if limit == 1 then [paths[0]]
    else
      IndexesExact(limit, |paths|);
      Picked(paths, Indexes(limit, |paths|))
  }

  /** Rising indexes from the first element to the last, with gaps within one of the exact step. */
  ghost predicate EvenlySpread(indexes: seq<int>, n: nat) {
    && indexes != [] && indexes[0] == 0 && (|indexes| > 1 ==> indexes[|indexes| - 1] == n - 1)
    && (forall i, j :: 0 <= i < j < |indexes| ==> indexes[i] < indexes[j])
    && (forall i :: 0 <= i < |indexes| ==> 0 <= indexes[i] < n)
    && (forall i :: 0 < i < |indexes| ==>
          var gap := (|indexes| - 1) * (indexes[i] - indexes[i - 1]);
          (n - 1) - (|indexes| - 1) <= gap <= (n - 1) + (|indexes| - 1))
  }

  lemma {:induction false} IndexesSpread(limit: nat, n: nat)
    requires 1 < limit < n
    ensures EvenlySpread(Indexes(limit, n), n)
  {
    IndexesExact(limit, n);
    Ends(limit, n);
    var indexes := Indexes(limit, n);
    forall i, j | 0 <= i < j < limit ensures indexes[i] < indexes[j] {
      IndexesRise(i, j, limit, n);
    }
    forall i | 0 < i < limit
      ensures (n - 1) - (limit - 1) <= (limit - 1) * (indexes[i] - indexes[i - 1]) <= (n - 1) + (limit - 1)
    {
      GapNearStep(i - 1, limit, n);
    }
    hide Index, Indexes;
  }

  /** An even sample below the whole picks exactly `limit` evenly spread places, each once. */
  lemma {:induction false} EvenSampleIs(paths: seq<string>, limit: nat) returns (indexes: seq<int>)
    requires 0 < limit < |paths|
    ensures |indexes| == limit == |EvenSample(paths, limit)| && EvenlySpread(indexes, |paths|)
    ensures forall i :: 0 <= i < limit ==> EvenSample(paths, limit)[i] == paths[indexes[i]]
    ensures multiset(EvenSample(paths, limit)) <= multiset(paths)
  {
    if limit == 1 {
      indexes := [0];
      assert paths == [paths[0]] + paths[1..];
    } else {
      IndexesExact(limit, |paths|);
      IndexesSpread(limit, |paths|);
      indexes := Indexes(limit, |paths|);
      hide Index, Indexes;
      PickedOnce(paths, indexes);
    }
  }

  /** Picking at rising indexes takes no more copies of a path than there are. */
  lemma {:induction false} PickedOnce(paths: seq<string>, indexes: seq<int>)
    requires forall i :: 0 <= i < |indexes| ==> 0 <= indexes[i] < |paths|
    requires forall i, j :: 0 <= i < j < |indexes| ==> indexes[i] < indexes[j]
    ensures multiset(Picked(paths, indexes)) <= multiset(paths)
  {
    if indexes == [] {
      assert Picked(paths, indexes) == [];
    } else {
      var n := |indexes| - 1;
      var last := indexes[n];
      PickedOnce(paths[..last], indexes[..n]);
      assert Picked(paths, indexes) == Picked(paths[..last], indexes[..n]) + [paths[last]];
      assert paths == paths[..last] + [paths[last]] + paths[last + 1..];
    }
  }

  function Filter(paths: seq<string>, required: set<string>, wanted: bool): seq<string> {
    if paths == [] then []
    else (if (paths[0] in required) == wanted then [paths[0]] else []) + Filter(paths[1..], required, wanted)
  }

  function SamplePaths(paths: seq<string>, limit: int, required: set<string>): seq<string> {
    if limit <= 0 || |paths| <= limit then paths
    else
      var needed := Filter(paths, required, true);
      if |needed| >= limit then Sort(needed, TextLe)
      else Sort(needed + EvenSample(Filter(paths, required, false), limit - |needed|), TextLe)
  }

  lemma {:induction false} FilterSplits(paths: seq<string>, required: set<string>)
    ensures |Filter(paths, required, true)| + |Filter(paths, required, false)| == |paths|
    ensures multiset(Filter(paths, required, true)) + multiset(Filter(paths, required, false)) == multiset(paths)
  {
    if paths != [] {
      FilterSplits(paths[1..], required);
      assert paths == [paths[0]] + paths[1..];
    }
  }

  lemma {:induction false} FilterMembers(paths: seq<string>, required: set<string>, wanted: bool, path: string)
    ensures path in Filter(paths, required, wanted) <==> path in paths && (path in required) == wanted
  {
    if paths != [] {
      FilterMembers(paths[1..], required, wanted, path);
      assert path in paths <==> path == paths[0] || path in paths[1..];
    }
  }

  lemma {:induction false} TextOrder()
    ensures TotalOrder(TextLe)
  {
    forall a, b ensures (TextLe(a, b) || TextLe(b, a)) && (TextLe(a, b) && TextLe(b, a) ==> a == b) {
      TextTotal(a, b);
    }
    forall a, b, c | TextLe(a, b) && TextLe(b, c) ensures TextLe(a, c) {
      TextTransitive(a, b, c);
    }
  }

  /**
   Above the limit the sample is a sorted sub-collection of the paths that keeps every required one:
   all required ones and no others when they fill the limit, and otherwise exactly `limit` paths.
   */
  lemma {:induction false} SamplePathsExact(paths: seq<string>, limit: int, required: set<string>)
    requires 0 < limit < |paths|
    ensures var r, needed := SamplePaths(paths, limit, required), Filter(paths, required, true);
            && Sorted(r, TextLe)
            && multiset(needed) <= multiset(r) <= multiset(paths)
            && (|needed| >= limit ==> multiset(r) == multiset(needed))
            && (|needed| < limit ==> |r| == limit)
  {
    var needed, others := Filter(paths, required, true), Filter(paths, required, false);
    FilterSplits(paths, required);
    TextOrder();
    if |needed| < limit {
      var _ := EvenSampleIs(others, limit - |needed|);
      SortSorts(needed + EvenSample(others, limit - |needed|), TextLe);
    } else {
      SortSorts(needed, TextLe);
    }
    hide EvenSample, TextLe, Filter;
  }

  /** Every required path of the inventory is sampled, whatever the limit. */
  lemma {:induction false} RequiredSampled(paths: seq<string>, limit: int, required: set<string>, path: string)
    requires path in paths && path in required
    ensures path in SamplePaths(paths, limit, required)
  {
    if 0 < limit < |paths| {
      SamplePathsExact(paths, limit, required);
      FilterMembers(paths, required, true, path);
      assert path in multiset(Filter(paths, required, true));
      assert path in multiset(SamplePaths(paths, limit, required));
    }
  }

  // ----- where the sampled paths stand in the inventory -----

  /** Rising places of a list of paths: exactly those of the paths that are, or are not, required. */
  ghost predicate PlacesOf(places: seq<int>, paths: seq<string>, required: set<string>, wanted: bool) {
    && (forall i, j :: 0 <= i < j < |places| ==> places[i] < places[j])
    && (forall i :: 0 <= i < |places| ==> 0 <= places[i] < |paths| && (paths[places[i]] in required) == wanted)
    && (forall k :: 0 <= k < |paths| && (paths[k] in required) == wanted ==> k in places)
  }

  lemma {:induction false} FilterLast(paths: seq<string>, path: string, required: set<string>, wanted: bool)
    ensures Filter(paths + [path], required, wanted)
            == Filter(paths, required, wanted) + if (path in required) == wanted then [path] else []
  {
    if paths == [] {
      assert [] + [path] == [path];
    } else {
      FilterLast(paths[1..], path, required, wanted);
      assert (paths + [path])[1..] == paths[1..] + [path];
    }
  }

  /** Filtering keeps the paths in inventory order. */
  lemma {:induction false} FilterPlaces(paths: seq<string>, required: set<string>, wanted: bool)
    returns (places: seq<int>)
    ensures PlacesOf(places, paths, required, wanted) && Filter(paths, required, wanted) == Picked(paths, places)
  {
    if paths == [] {
      places := [];
    } else {
      var n := |paths| - 1;
      var init, last := paths[..n], paths[n];
      var earlier := FilterPlaces(init, required, wanted);
      FilterLast(init, last, required, wanted);
      hide Filter;
      assert paths == init + [last];
      var more := if (last in required) == wanted then [n] else [];
      places := earlier + more;
      PlacesMore(earlier, more, paths, required, wanted);
      assert Picked(init, earlier) == Picked(paths, earlier);
      assert Picked(paths, places) == Picked(paths, earlier) + Picked(paths, more);
    }
  }

  lemma {:induction false} PlacesMore(
    earlier: seq<int>, more: seq<int>, paths: seq<string>, required: set<string>, wanted: bool)
    requires paths != [] && PlacesOf(earlier, paths[..|paths| - 1], required, wanted)
    requires more == if (paths[|paths| - 1] in required) == wanted then [|paths| - 1] else []
    ensures PlacesOf(earlier + more, paths, required, wanted)
  {
    var n := |paths| - 1;
    forall k | 0 <= k < |paths| && (paths[k] in required) == wanted ensures k in earlier + more {
      assert k < n ==> paths[..n][k] == paths[k] && k in earlier;
    }
  }

  lemma {:induction false} FilterCounts(paths: seq<string>, required: set<string>, wanted: bool, path: string)
    ensures multiset(Filter(paths, required, wanted))[path]
            == if (path in required) == wanted then multiset(paths)[path] else 0
  {
    if paths != [] {
      FilterCounts(paths[1..], required, wanted, path);
      assert paths == [paths[0]] + paths[1..];
    }
  }

  /**
   Above the limit the sample holds the required paths as often as the inventory does, and of the
   others, in inventory order, those at evenly spread places, as many as the limit leaves room for.
   */
  lemma {:induction false} SampleSpread(paths: seq<string>, limit: int, required: set<string>)
    returns (places: seq<int>, indexes: seq<int>)
    requires 0 < limit < |paths|
    ensures PlacesOf(places, paths, required, false) && |places| <= |paths|
    ensures var needed := |paths| - |places|;
            && |indexes| == (if needed >= limit then 0 else limit - needed)
            && (needed < limit ==> EvenlySpread(indexes, |places|))
    ensures forall i :: 0 <= i < |indexes| ==> 0 <= indexes[i] < |places|
    ensures forall path :: multiset(SamplePaths(paths, limit, required))[path] ==
              if path in required then multiset(paths)[path]
              else multiset(Picked(Picked(paths, places), indexes))[path]
  {
    hide *;
    places := FilterPlaces(paths, required, false);
    var needed, others := Filter(paths, required, true), Filter(paths, required, false);
    FilterSplits(paths, required);
    indexes := [];
    if |needed| < limit {
      indexes := Drawn(others, limit - |needed|);
    }
    SampleIs(paths, limit, required, indexes);
    forall path
      ensures multiset(SamplePaths(paths, limit, required))[path] ==
        if path in required then multiset(paths)[path] else multiset(Picked(others, indexes))[path]
    {
      FilterCounts(paths, required, true, path);
      FilterCounts(paths, required, false, path);
      PickedAmong(others, indexes, path);
    }
  }

  lemma {:induction false} Drawn(paths: seq<string>, limit: nat) returns (indexes: seq<int>)
    requires 0 < limit < |paths|
    ensures |indexes| == limit && EvenlySpread(indexes, |paths|)
    ensures forall i :: 0 <= i < |indexes| ==> 0 <= indexes[i] < |paths|
    ensures EvenSample(paths, limit) == Picked(paths, indexes)
  {
    hide EvenSample;
    indexes := EvenSampleIs(paths, limit);
  }

  lemma {:induction false} SampleIs(paths: seq<string>, limit: int, required: set<string>, indexes: seq<int>)
    requires 0 < limit < |paths|
    requires var needed, others := Filter(paths, required, true), Filter(paths, required, false);
             && (forall i :: 0 <= i < |indexes| ==> 0 <= indexes[i] < |others|)
             && (|needed| >= limit ==> indexes == [])
             && (|needed| < limit ==> EvenSample(others, limit - |needed|) == Picked(others, indexes))
    ensures multiset(SamplePaths(paths, limit, required))
            == multiset(Filter(paths, required, true)) + multiset(Picked(Filter(paths, required, false), indexes))
  {
    hide EvenSample, Filter;
    TextOrder();
    var needed, others := Filter(paths, required, true), Filter(paths, required, false);
    hide TextLe;
    if |needed| < limit {
      SortSorts(needed + EvenSample(others, limit - |needed|), TextLe);
    } else {
      SortSorts(needed, TextLe);
      assert Picked(others, indexes) == [];
    }
  }

  lemma {:induction false} PickedAmong(paths: seq<string>, indexes: seq<int>, path: string)
    requires forall i :: 0 <= i < |indexes| ==> 0 <= indexes[i] < |paths|
    ensures multiset(paths)[path] == 0 ==> multiset(Picked(paths, indexes))[path] == 0
  {
    if path in Picked(paths, indexes) {
      var i :| 0 <= i < |indexes| && Picked(paths, indexes)[i] == path;
      assert paths[indexes[i]] == path && path in paths;
    }
  }

  /** With nothing required, the sample reaches from the first path of the inventory to the last. */
  lemma {:induction false} EndsSampled(paths: seq<string>, limit: int, required: set<string>)
    requires 0 < limit < |paths| && forall k :: 0 <= k < |paths| ==> paths[k] !in required
    ensures paths[0] in SamplePaths(paths, limit, required)
    ensures limit > 1 ==> paths[|paths| - 1] in SamplePaths(paths, limit, required)
  {
    hide SamplePaths, Picked, PlacesOf, EvenlySpread;
    var places, indexes := SampleSpread(paths, limit, required);
    AllPlaces(places, paths, required);
    SpreadEnds(paths, places, indexes);
    var picked := Picked(Picked(paths, places), indexes);
    Counted(picked, SamplePaths(paths, limit, required), 0);
    if limit > 1 {
      Counted(picked, SamplePaths(paths, limit, required), |indexes| - 1);
    }
  }

  lemma {:induction false} SpreadEnds(paths: seq<string>, places: seq<int>, indexes: seq<int>)
    requires |places| == |paths| && forall k :: 0 <= k < |paths| ==> places[k] == k
    requires (forall i :: 0 <= i < |indexes| ==> 0 <= indexes[i] < |places|) && EvenlySpread(indexes, |places|)
    ensures var picked := Picked(Picked(paths, places), indexes);
            && |picked| == |indexes| > 0 && picked[0] == paths[0]
            && (|indexes| > 1 ==> picked[|indexes| - 1] == paths[|paths| - 1])
  {
  }

  lemma {:induction false} Counted(a: seq<string>, b: seq<string>, i: nat)
    requires i < |a| && multiset(b)[a[i]] == multiset(a)[a[i]]
    ensures a[i] in b
  {
    assert a[i] in multiset(a);
  }

  lemma {:induction false} AllPlaces(places: seq<int>, paths: seq<string>, required: set<string>)
    requires PlacesOf(places, paths, required, false) && forall k :: 0 <= k < |paths| ==> paths[k] !in required
    ensures |places| == |paths| && forall k :: 0 <= k < |paths| ==> places[k] == k
  {
    for k := 0 to |paths|
      invariant k <= |places| && forall i :: 0 <= i < k ==> places[i] == i
    {
      assert k in places;
      var i :| 0 <= i < |places| && places[i] == k;
      assert i >= k && (k > 0 ==> places[k - 1] < places[k]);
    }
  }

  // ----- the context built from an inventory -----

  datatype Note = Capped(sampled: nat, total: nat) | RequiredExceedCap(required: nat, cap: int, total: nat)

  datatype Context = Context(tracked: seq<string>, total: nat, notes: seq<Note>)

  function Present(required: set<string>, paths: seq<string>): set<string> {
    set path | path in required && path in paths
  }

  /** A note when the sample is smaller, and one when the required paths alone exceed the cap. */
  function Notes(sampled: nat, total: nat, present: nat, maximum: int): seq<Note> {
    (if sampled < total then [Capped(sampled, total)] else [])
    + (if 0 < maximum < present then [RequiredExceedCap(present, maximum, total)] else [])
  }

  method FromPaths(paths: seq<string>, required: set<string>, maximum: int) returns (context: Context)
    ensures context.tracked == SamplePaths(paths, maximum, required) && context.total == |paths|
    ensures context.notes == Notes(|context.tracked|, |paths|, |Present(required, paths)|, maximum)
  {
    var present := Present(required, paths);
    SamplePresent(paths, maximum, required);
    hide SamplePaths, Present;
    var sampled := SamplePaths(paths, maximum, present);
    var notes: seq<Note> := [];
    if |sampled| < |paths| {
      notes := notes + [Capped(|sampled|, |paths|)];
    }
    if maximum > 0 && |present| > maximum {
      notes := notes + [RequiredExceedCap(|present|, maximum, |paths|)];
    }
    context := Context(sampled, |paths|, notes);
  }

  /** Required paths outside the inventory make no difference. */
  lemma {:induction false} SamplePresent(paths: seq<string>, limit: int, required: set<string>)
    ensures SamplePaths(paths, limit, Present(required, paths)) == SamplePaths(paths, limit, required)
  {
    FilterPresent(paths, paths, required);
    hide Filter, Present;
  }

  lemma {:induction false} FilterPresent(paths: seq<string>, all: seq<string>, required: set<string>)
    requires forall p :: p in paths ==> p in all
    ensures Filter(paths, Present(required, all), true) == Filter(paths, required, true)
    ensures Filter(paths, Present(required, all), false) == Filter(paths, required, false)
  {
    if paths != [] {
      assert paths[0] in all;
      FilterPresent(paths[1..], all, required);
    }
  }

  lemma {:induction false} PresentCount(paths: seq<string>, required: set<string>)
    requires NoRepeats(paths)
    ensures |Present(required, paths)| == |Filter(paths, required, true)|
  {
    if paths == [] {
      assert Present(required, paths) == {};
    } else {
      PresentCount(paths[1..], required);
      var rest := Present(required, paths[1..]);
      assert Present(required, paths) == (if paths[0] in required then rest + {paths[0]} else rest);
    }
  }

  /**
   For an inventory without repetitions the context has no repetitions either; it holds the whole
   inventory, exactly `maximum` paths, or, when these alone exceed it, exactly the required ones.
   */
  lemma {:induction false} TrackedCount(paths: seq<string>, required: set<string>, maximum: int)
    requires NoRepeats(paths)
    ensures var tracked, present := SamplePaths(paths, maximum, required), Present(required, paths);
            && NoRepeats(tracked)
            && (forall p :: p in tracked ==> p in paths) && (forall p :: p in present ==> p in tracked)
            && |tracked| == (if maximum <= 0 || |paths| <= maximum then |paths|
                             else if |present| <= maximum then maximum else |present|)
  {
    var tracked := SamplePaths(paths, maximum, required);
    PresentCount(paths, required);
    forall p | p in Present(required, paths) ensures p in tracked {
      RequiredSampled(paths, maximum, required, p);
    }
    if 0 < maximum < |paths| {
      SamplePathsExact(paths, maximum, required);
      hide SamplePaths, Filter, Present;
      NoRepeatsWithin(tracked, paths);
      assert |tracked| == |multiset(tracked)|;
      assert |Filter(paths, required, true)| == |multiset(Filter(paths, required, true))|;
    }
  }

  /** Nothing is sampled away when no limit is set or the inventory is within it. */
  lemma {:induction false} WholeInventory(paths: seq<string>, limit: int, required: set<string>)
    requires limit <= 0 || |paths| <= limit
    ensures SamplePaths(paths, limit, required) == paths
  {
  }

  /**
   What the notes of a context say, from the inventory, the required paths and the cap alone: nothing
   within the cap; the sample and the total above it; and the excess of required paths, if there is one.
   */
  lemma {:induction false} NotesMean(paths: seq<string>, required: set<string>, maximum: int)
    requires NoRepeats(paths)
    ensures var wanted, total := |set p | p in required && p in paths|, |paths|;
            Notes(|SamplePaths(paths, maximum, required)|, total, |Present(required, paths)|, maximum) ==
            if maximum <= 0 || total <= maximum then []
            else if wanted <= maximum then [Capped(maximum, total)]
            else if wanted < total then [Capped(wanted, total), RequiredExceedCap(wanted, maximum, total)]
            else [RequiredExceedCap(wanted, maximum, total)]
  {
    TrackedCount(paths, required, maximum);
    PresentCount(paths, required);
    FilterSplits(paths, required);
    hide SamplePaths, Filter;
  }
}
