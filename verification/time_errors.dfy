/** The duplicate-timestamp pass of the post-processor (`find_time_errors`):
    within every segment of every track, a point whose timestamp equals the
    timestamp of the point just before it is reported, and, when removal is
    requested, deleted. */
module TimeErrors {
  import opened Wrappers

  /** A GPS fix. Timestamps come from an abstract type `T` that only needs
      equality, because the pass compares them with `==` and nothing else;
      `None` is a point without a timestamp. */
  datatype Point<T> = Point(time: Option<T>, latitude: real, longitude: real, elevation: Option<real>)

  /** The points of one contiguous recording, in temporal order. */
  type Segment<T> = seq<Point<T>>

  datatype Track<T> = Track(segments: seq<Segment<T>>)

  datatype Gpx<T> = Gpx(tracks: seq<Track<T>>)

  /** The timestamp the walk remembers from the previous point. Before the
      first point it holds the sentinel `-1`, which is equal neither to a
      timestamp nor to `None`. */
  datatype Prev<T> = Sentinel | Seen(time: Option<T>)

  /** The test `p.time == last_time`. Two missing timestamps are equal. */
  predicate SameAsPrevious<T(==)>(prev: Prev<T>, t: Option<T>) {
    prev == Seen(t)
  }

  /** Index `k` of `s` repeats the timestamp of the point before it. */
  predicate IsDuplicate<T(==)>(s: Segment<T>, k: int) {
    0 < k < |s| && s[k].time == s[k - 1].time
  }

  /** The set of all indices the pass flags in `s`. */
  ghost function DuplicateSet<T>(s: Segment<T>): set<nat> {
    set k: nat | k < |s| && IsDuplicate(s, k)
  }

  /** The post-clean invariant: no two adjacent points share a timestamp. */
  ghost predicate NoAdjacentDuplicates<T>(s: Segment<T>) {
    forall k :: !IsDuplicate(s, k)
  }

  ghost function Elems(xs: seq<nat>): set<nat> {
    set k | k in xs
  }

  ghost predicate StrictlyAscending(xs: seq<nat>) {
    forall i, j :: 0 <= i < j < |xs| ==> xs[i] < xs[j]
  }

  /** A report of the indices of `s`: exactly the duplicates, in walk
      order, and empty exactly when the segment is already clean. */
  ghost predicate ReportsDuplicates<T>(s: Segment<T>, errs: seq<nat>) {
    && (forall k :: k in errs <==> IsDuplicate(s, k))
    && StrictlyAscending(errs)
    && (errs == [] <==> NoAdjacentDuplicates(s))
  }

  /** The one-pass filter: the points of `s` whose index is not in `d`, in
      their original order. */
  ghost function Without<T>(s: Segment<T>, d: set<nat>): (r: Segment<T>)
    ensures |r| <= |s|
  {
    if |s| == 0 then []
    else Without(s[..|s| - 1], d) + (if |s| - 1 in d then [] else [s[|s| - 1]])
  }

  /** `a` is `b` with some elements left out, the rest in the same order. */
  ghost predicate SubsequenceOf<T>(a: seq<T>, b: seq<T>)
    decreases |b|
  {
    if |b| == 0 then |a| == 0
    else
      SubsequenceOf(a, b[..|b| - 1])
      || (|a| > 0 && a[|a| - 1] == b[|b| - 1] && SubsequenceOf(a[..|a| - 1], b[..|b| - 1]))
  }

  /** The reference behaviour: each run of points with equal timestamps is
      collapsed to the first point of the run. */
  function CollapseRuns<T(==)>(s: Segment<T>): (r: Segment<T>)
    ensures |r| <= |s|
    ensures |s| > 0 ==> |r| > 0 && r[0] == s[0] && r[|r| - 1].time == s[|s| - 1].time
    ensures NoAdjacentDuplicates(r)
  {
    if |s| <= 1 then s
    else
      var r' := CollapseRuns(s[..|s| - 1]);
      if s[|s| - 1].time == s[|s| - 2].time then r'
      else
        AppendNewTime(r', s[|s| - 1]);
        r' + [s[|s| - 1]]
  }

  /** Appending a point whose timestamp differs from the last one keeps a
      segment clean. */
  lemma AppendNewTime<T>(s: Segment<T>, p: Point<T>)
    requires NoAdjacentDuplicates(s)
    requires |s| > 0 ==> s[|s| - 1].time != p.time
    ensures NoAdjacentDuplicates(s + [p])
  {
    forall k ensures !IsDuplicate(s + [p], k) {
      if 0 < k < |s| {
        assert !IsDuplicate(s, k);
      }
    }
  }

  /** What one segment looks like after the pass. */
  function Cleaned<T(==)>(s: Segment<T>, remove: bool): Segment<T> {
    if remove then CollapseRuns(s) else s
  }

  ghost predicate IsClean<T>(g: Gpx<T>) {
    forall t, k :: 0 <= t < |g.tracks| && 0 <= k < |g.tracks[t].segments| ==>
      NoAdjacentDuplicates(g.tracks[t].segments[k])
  }

  // ---------------------------------------------------------------------
  // Facts about the filter

  lemma {:induction false} WithoutNothingBelow<T>(s: Segment<T>, d: set<nat>)
    requires forall k :: k in d ==> |s| <= k
    ensures Without(s, d) == s
  {
    if |s| > 0 {
      WithoutNothingBelow(s[..|s| - 1], d);
      assert s[..|s| - 1] + [s[|s| - 1]] == s;
    }
  }

  /** Only the indices below `|s|` matter to the filter. */
  lemma {:induction false} WithoutAgree<T>(s: Segment<T>, d1: set<nat>, d2: set<nat>)
    requires forall k: nat :: k < |s| ==> (k in d1 <==> k in d2)
    ensures Without(s, d1) == Without(s, d2)
  {
    if |s| > 0 {
      WithoutAgree(s[..|s| - 1], d1, d2);
    }
  }

  /** Deleting position `e` of the filtered segment, when every index
      already filtered out lies above `e`, is the same as filtering `e` out
      too: the pending smaller index still points at the same point. */
  lemma {:induction false} WithoutOneMore<T>(s: Segment<T>, d: set<nat>, e: nat)
    requires e < |s|
    requires forall k :: k in d ==> e < k
    ensures e < |Without(s, d)|
    ensures Without(s, d + {e}) == Without(s, d)[..e] + Without(s, d)[e + 1..]
  {
    var n := |s| - 1;
    var s' := s[..n];
    if n == e {
      WithoutOneMoreAtEnd(s, d);
    } else {
      WithoutOneMore(s', d, e);
      var tail := if n in d then [] else [s[n]];
      assert Without(s, d) == Without(s', d) + tail;
      assert Without(s, d + {e}) == Without(s', d + {e}) + tail;
      DeleteBeforeTail(Without(s', d), tail, e);
    }
  }

  /** `WithoutOneMore` when `e` is the last position. */
  lemma WithoutOneMoreAtEnd<T>(s: Segment<T>, d: set<nat>)
    requires |s| > 0
    requires forall k :: k in d ==> |s| - 1 < k
    ensures Without(s, d) == s
    ensures Without(s, d + {|s| - 1}) == s[..|s| - 1]
  {
    var n := |s| - 1;
    var s', d' := s[..n], d + {n};
    assert n !in d && n in d';
    assert forall k :: k in d' ==> n <= k;
    WithoutNothingBelow(s', d);
    WithoutNothingBelow(s', d');
    assert Without(s, d) == Without(s', d) + [s[n]];
    assert Without(s, d') == Without(s', d');
    assert s == s' + [s[n]];
  }

  /** Deleting position `e` of `w + tail` deletes it from `w`. */
  lemma DeleteBeforeTail<T>(w: seq<T>, tail: seq<T>, e: nat)
    requires e < |w|
    ensures (w + tail)[..e] + (w + tail)[e + 1..] == (w[..e] + w[e + 1..]) + tail
  {
    assert (w + tail)[..e] == w[..e];
    assert (w + tail)[e + 1..] == w[e + 1..] + tail;
  }

  /** Survivors of the filter keep their relative order. */
  lemma {:induction false} WithoutIsSubsequence<T>(s: Segment<T>, d: set<nat>)
    ensures SubsequenceOf(Without(s, d), s)
  {
    if |s| > 0 {
      var n := |s| - 1;
      WithoutIsSubsequence(s[..n], d);
      var w := Without(s[..n], d);
      if n !in d {
        assert Without(s, d) == w + [s[n]];
        assert (w + [s[n]])[..|w|] == w;
      } else {
        assert Without(s, d) == w;
      }
    }
  }

  /** Filtering out exactly the flagged indices in one pass keeps the first
      point of each run of equal timestamps and nothing else. */
  lemma {:induction false} FilterIsCollapse<T>(s: Segment<T>)
    ensures Without(s, DuplicateSet(s)) == CollapseRuns(s)
  {
    if |s| <= 1 {
      WithoutNothingBelow(s, DuplicateSet(s));
    } else {
      var n := |s| - 1;
      var s' := s[..n];
      var d, d' := DuplicateSet(s), DuplicateSet(s');
      FilterIsCollapse(s');
      DuplicateSetOfPrefix(s);
      WithoutAgree(s', d, d');
      assert Without(s, d) == Without(s', d) + (if n in d then [] else [s[n]]);
      assert n in d <==> s[n].time == s[n - 1].time;
    }
  }

  /** Below the last index, the flags of a segment and of the segment
      without its last point agree. */
  lemma DuplicateSetOfPrefix<T>(s: Segment<T>)
    requires |s| > 0
    ensures forall k: nat :: k < |s| - 1 ==> (k in DuplicateSet(s) <==> k in DuplicateSet(s[..|s| - 1]))
  {
    var s' := s[..|s| - 1];
    forall k: nat | k < |s'|
      ensures k in DuplicateSet(s) <==> k in DuplicateSet(s')
    {
      assert IsDuplicate(s, k) <==> IsDuplicate(s', k);
    }
  }

  /** A segment that is already clean is left as it is. */
  lemma {:induction false} CollapseClean<T>(s: Segment<T>)
    requires NoAdjacentDuplicates(s)
    ensures CollapseRuns(s) == s
  {
    if |s| > 1 {
      var n := |s| - 1;
      forall k ensures !IsDuplicate(s[..n], k) {
        assert IsDuplicate(s[..n], k) ==> IsDuplicate(s, k);
      }
      CollapseClean(s[..n]);
      assert !IsDuplicate(s, n);
      assert s[..n] + [s[n]] == s;
    }
  }

  /** Cleaning twice is cleaning once. */
  lemma CollapseIdempotent<T>(s: Segment<T>)
    ensures CollapseRuns(CollapseRuns(s)) == CollapseRuns(s)
  {
    CollapseClean(CollapseRuns(s));
  }

  /** A run of three equal timestamps followed by a new one keeps the first
      and the last point: `[t, t, t, u]` becomes `[t, u]`. */
  lemma RunOfThree<T>(a: Point<T>, b: Point<T>, c: Point<T>, d: Point<T>)
    requires a.time == b.time == c.time && c.time != d.time
    ensures CollapseRuns([a, b, c, d]) == [a, d]
  {
    assert [a, b][..1] == [a];
    assert CollapseRuns([a, b]) == [a];
    assert [a, b, c][..2] == [a, b];
    assert CollapseRuns([a, b, c]) == [a];
    assert [a, b, c, d][..3] == [a, b, c];
  }

  // ---------------------------------------------------------------------
  // The pass

  /** The walk over one segment: every index whose point has the same
      timestamp as the previous point, starting from the sentinel. */
  method FindInSegment<T(==)>(s: Segment<T>) returns (errs: seq<nat>)
    ensures ReportsDuplicates(s, errs)
    ensures forall k :: k in errs ==> 0 < k < |s|
  {
    errs := [];
    var last: Prev<T> := Sentinel;
    var i := 0;
    while i < |s|
      invariant 0 <= i <= |s|
      invariant last == if i == 0 then Sentinel else Seen(s[i - 1].time)
      invariant forall k :: k in errs <==> k < i && IsDuplicate(s, k)
      invariant forall k :: k in errs ==> k < i
      invariant StrictlyAscending(errs)
      invariant errs == [] <==> forall k :: k < i ==> !IsDuplicate(s, k)
    {
      assert SameAsPrevious(last, s[i].time) <==> IsDuplicate(s, i);
      if SameAsPrevious(last, s[i].time) {
        forall a, b | 0 <= a < b < |errs| + 1 ensures (errs + [i])[a] < (errs + [i])[b] {
          if b == |errs| {
            assert errs[a] in errs;
          }
        }
        errs := errs + [i];
      }
      last := Seen(s[i].time);
      i := i + 1;
    }
  }

  /** `del points[i]` for each flagged index, largest index first. */
  method DeleteDescending<T>(s: Segment<T>, errs: seq<nat>) returns (r: Segment<T>)
    requires StrictlyAscending(errs)
    requires forall k :: k in errs ==> k < |s|
    ensures r == Without(s, Elems(errs))
    ensures |r| == |s| - |errs|
    ensures SubsequenceOf(r, s)
  {
    r := s;
    var j := |errs|;
    WithoutNothingBelow(s, Elems(errs[j..]));
    while j > 0
      invariant 0 <= j <= |errs|
      invariant r == Without(s, Elems(errs[j..]))
      invariant |r| == |s| - (|errs| - j)
    {
      j := j - 1;
      var e := errs[j];
      assert e in errs;
      var pending := Elems(errs[j + 1..]);
      forall k | k in pending ensures e < k {
        var m :| j + 1 <= m < |errs| && errs[m] == k;
      }
      WithoutOneMore(s, pending, e);
      assert (Elems(errs[j..])) == pending + {e} by {
        assert errs[j..] == [e] + errs[j + 1..];
      }
      r := r[..e] + r[e + 1..];
    }
    assert errs[0..] == errs;
    WithoutIsSubsequence(s, Elems(errs));
  }

  /** One segment of `find_time_errors`: report the duplicates and, when
      removal is requested and there is something to remove, delete them. */
  method CleanSegment<T(==)>(s: Segment<T>, remove: bool) returns (errs: seq<nat>, r: Segment<T>)
    ensures ReportsDuplicates(s, errs)
    ensures r == Cleaned(s, remove)
    ensures |r| == if remove then |s| - |errs| else |s|
  {
    errs := FindInSegment(s);
    r := s;
    if |errs| > 0 && remove {
      r := DeleteDescending(s, errs);
      FilterIsCollapse(s);
      assert Elems(errs) == DuplicateSet(s);
    } else if remove {
      assert NoAdjacentDuplicates(s) by {
        forall k ensures !IsDuplicate(s, k) {
          assert k !in errs;
        }
      }
      CollapseClean(s);
    }
  }

  /** `find_time_errors(gpx, remove)`: every segment of every track is
      treated on its own; the number of tracks and of segments never
      changes. `report[t][k]` holds the indices reported for segment `k` of
      track `t`. */
  method FindTimeErrors<T(==)>(g: Gpx<T>, remove: bool) returns (g': Gpx<T>, report: seq<seq<seq<nat>>>)
    ensures |g'.tracks| == |g.tracks| == |report|
    ensures forall t :: 0 <= t < |g.tracks| ==>
      |g'.tracks[t].segments| == |g.tracks[t].segments| == |report[t]|
    ensures forall t, k :: 0 <= t < |g.tracks| && 0 <= k < |g.tracks[t].segments| ==>
      && ReportsDuplicates(g.tracks[t].segments[k], report[t][k])
      && g'.tracks[t].segments[k] == Cleaned(g.tracks[t].segments[k], remove)
    ensures !remove ==> g' == g
    ensures remove ==> IsClean(g')
    ensures IsClean(g) ==> g' == g && forall t, k :: 0 <= t < |report| && 0 <= k < |report[t]| ==> report[t][k] == []
  {
    var tracks: seq<Track<T>> := [];
    report := [];
    var t := 0;
    while t < |g.tracks|
      invariant 0 <= t <= |g.tracks|
      invariant |tracks| == |report| == t
      invariant forall u :: 0 <= u < t ==>
        |tracks[u].segments| == |g.tracks[u].segments| == |report[u]|
      invariant forall u, k :: 0 <= u < t && 0 <= k < |g.tracks[u].segments| ==>
        && ReportsDuplicates(g.tracks[u].segments[k], report[u][k])
        && tracks[u].segments[k] == Cleaned(g.tracks[u].segments[k], remove)
    {
      var segs := g.tracks[t].segments;
      var out: seq<Segment<T>> := [];
      var rep: seq<seq<nat>> := [];
      var k := 0;
      while k < |segs|
        invariant 0 <= k <= |segs|
        invariant |out| == |rep| == k
        invariant forall m :: 0 <= m < k ==>
          ReportsDuplicates(segs[m], rep[m]) && out[m] == Cleaned(segs[m], remove)
      {
        var errs, seg := CleanSegment(segs[k], remove);
        out := out + [seg];
        rep := rep + [errs];
        k := k + 1;
      }
      tracks := tracks + [Track(out)];
      report := report + [rep];
      t := t + 1;
    }
    g' := Gpx(tracks);
    if !remove {
      ReportOnlyChangesNothing(g, g');
    } else {
      CleanAfterRemoval(g, g');
    }
    if IsClean(g) {
      SecondPassIsIdle(g, g', report, remove);
    }
  }

  // ---------------------------------------------------------------------
  // Properties of the whole pass

  /** Without removal the GPX data is left exactly as it was. */
  lemma ReportOnlyChangesNothing<T>(g: Gpx<T>, g': Gpx<T>)
    requires |g'.tracks| == |g.tracks|
    requires forall t :: 0 <= t < |g.tracks| ==> |g'.tracks[t].segments| == |g.tracks[t].segments|
    requires forall t, k :: 0 <= t < |g.tracks| && 0 <= k < |g.tracks[t].segments| ==>
      g'.tracks[t].segments[k] == Cleaned(g.tracks[t].segments[k], false)
    ensures g' == g
  {
    forall t | 0 <= t < |g.tracks| ensures g'.tracks[t] == g.tracks[t] {
      assert g'.tracks[t].segments == g.tracks[t].segments;
    }
  }

  /** After removal the data is clean, and a second pass over clean data
      reports nothing and changes nothing. */
  lemma CleanAfterRemoval<T>(g: Gpx<T>, g': Gpx<T>)
    requires |g'.tracks| == |g.tracks|
    requires forall t :: 0 <= t < |g.tracks| ==> |g'.tracks[t].segments| == |g.tracks[t].segments|
    requires forall t, k :: 0 <= t < |g.tracks| && 0 <= k < |g.tracks[t].segments| ==>
      g'.tracks[t].segments[k] == Cleaned(g.tracks[t].segments[k], true)
    ensures IsClean(g')
  {
  }

  lemma SecondPassIsIdle<T>(g: Gpx<T>, g': Gpx<T>, report: seq<seq<seq<nat>>>, remove: bool)
    requires IsClean(g)
    requires |g'.tracks| == |g.tracks| == |report|
    requires forall t :: 0 <= t < |g.tracks| ==>
      |g'.tracks[t].segments| == |g.tracks[t].segments| == |report[t]|
    requires forall t, k :: 0 <= t < |g.tracks| && 0 <= k < |g.tracks[t].segments| ==>
      && ReportsDuplicates(g.tracks[t].segments[k], report[t][k])
      && g'.tracks[t].segments[k] == Cleaned(g.tracks[t].segments[k], remove)
    ensures g' == g
    ensures forall t, k :: 0 <= t < |report| && 0 <= k < |report[t]| ==> report[t][k] == []
  {
    forall t | 0 <= t < |g.tracks| ensures g'.tracks[t] == g.tracks[t] {
      forall k | 0 <= k < |g.tracks[t].segments|
        ensures g'.tracks[t].segments[k] == g.tracks[t].segments[k]
      {
        CollapseClean(g.tracks[t].segments[k]);
      }
      assert g'.tracks[t].segments == g.tracks[t].segments;
    }
    forall t, k | 0 <= t < |report| && 0 <= k < |report[t]| ensures report[t][k] == [] {
      var s := g.tracks[t].segments[k];
      assert NoAdjacentDuplicates(g.tracks[t].segments[k]);
    }
  }
}
