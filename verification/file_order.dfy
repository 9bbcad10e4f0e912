/** The order in which the post-processor visits its input videos, and the
    name of the map file written for each. A GoPro file name starts with a
    4-character chapter prefix (`GX01`) followed by the video number and the
    extension (`0001.mp4`); the names are sorted on `(rest, prefix)` so that
    the chapters of one recording come together and in order. */
module FileOrder {
  import opened Lex

  type Pair = (string, string)

  /** `(fn[4:], fn[:4])`. Python clamps slice bounds, so a name shorter than
      4 characters becomes `("", fn)`. */
  function SplitName(fn: string): (p: Pair)
    ensures p.1 + p.0 == fn
    ensures |p.1| == if |fn| < 4 then |fn| else 4
  {
    var c := if |fn| < 4 then |fn| else 4;
    (fn[c..], fn[..c])
  }

  /** `seg + vid` for the pair `(vid, seg)`. */
  function Rejoin(p: Pair): string {
    p.1 + p.0
  }

  function SplitAll(names: seq<string>): seq<Pair> {
    seq(|names|, i requires 0 <= i < |names| => SplitName(names[i]))
  }

  function RejoinAll(ps: seq<Pair>): (r: seq<string>)
    ensures |r| == |ps|
  {
    if |ps| == 0 then [] else [Rejoin(ps[0])] + RejoinAll(ps[1..])
  }

  ghost predicate Sorted(xs: seq<Pair>) {
    forall i, j :: 0 <= i < j < |xs| ==> PairLe(xs[i], xs[j])
  }

  // ---------------------------------------------------------------------
  // Sorting

  /** Places `x` into the sorted list `xs`. */
  function Insert(x: Pair, xs: seq<Pair>): (r: seq<Pair>)
    requires Sorted(xs)
    ensures Sorted(r)
    ensures multiset(r) == multiset(xs) + multiset{x}
  {
    if |xs| == 0 then [x]
    else if PairLe(x, xs[0]) then
      SmallestFirst(x, xs);
      [x] + xs
    else
      var rest := Insert(x, xs[1..]);
      PairLeTotal(x, xs[0]);
      assert xs == [xs[0]] + xs[1..];
      SmallestFirst(xs[0], rest);
      [xs[0]] + rest
  }

  /** Prepending an element no larger than the head of a sorted list, or no
      larger than any of its elements, keeps it sorted. */
  lemma SmallestFirst(h: Pair, xs: seq<Pair>)
    requires Sorted(xs)
    requires (|xs| > 0 && PairLe(h, xs[0])) || (forall y :: y in multiset(xs) ==> PairLe(h, y))
    ensures Sorted([h] + xs)
  {
    forall j | 0 <= j < |xs| ensures PairLe(h, xs[j]) {
      if !(forall y :: y in multiset(xs) ==> PairLe(h, y)) {
        if j > 0 {
          PairLeTransitive(h, xs[0], xs[j]);
        }
      } else {
        assert xs[j] in multiset(xs);
      }
    }
  }

  /** `list.sort()` on the pairs. Python's sort is a merge sort; since the
      pair order is total, the sorted permutation is unique
      (`SortedPermutationUnique`), so insertion sort yields the same list. */
  function Sort(xs: seq<Pair>): (r: seq<Pair>)
    ensures Sorted(r)
    ensures multiset(r) == multiset(xs)
  {
    if |xs| == 0 then []
    else
      assert xs == [xs[0]] + xs[1..];
      Insert(xs[0], Sort(xs[1..]))
  }

  /** Two sorted lists holding the same elements are the same list. */
  lemma {:induction false} SortedPermutationUnique(a: seq<Pair>, b: seq<Pair>)
    requires Sorted(a) && Sorted(b)
    requires multiset(a) == multiset(b)
    ensures a == b
  {
    if |a| > 0 {
      SameHead(a, b);
      SortedPermutationUnique(a[1..], b[1..]);
      assert a == [a[0]] + a[1..];
      assert b == [b[0]] + b[1..];
    } else {
      assert |b| == |multiset(b)| == 0;
    }
  }

  /** Two non-empty sorted lists holding the same elements start with the
      same element, and their tails again are sorted and hold the same
      elements. */
  lemma SameHead(a: seq<Pair>, b: seq<Pair>)
    requires Sorted(a) && Sorted(b) && |a| > 0
    requires multiset(a) == multiset(b)
    ensures |b| > 0 && a[0] == b[0]
    ensures Sorted(a[1..]) && Sorted(b[1..])
    ensures multiset(a[1..]) == multiset(b[1..])
  {
    assert |b| == |multiset(b)| == |a|;
    assert a[0] in multiset(a) && b[0] in multiset(b);
    HeadIsLeast(a, b[0]);
    HeadIsLeast(b, a[0]);
    PairLeAntisymmetric(a[0], b[0]);
    TailMultiset(a);
    TailMultiset(b);
  }

  /** The head of a sorted list is no larger than anything in it. */
  lemma HeadIsLeast(xs: seq<Pair>, y: Pair)
    requires Sorted(xs) && y in multiset(xs)
    ensures PairLe(xs[0], y)
  {
    var i :| 0 <= i < |xs| && xs[i] == y;
    if i == 0 {
      PairLeReflexive(y);
    }
  }

  lemma TailMultiset(xs: seq<Pair>)
    requires |xs| > 0
    ensures Sorted(xs) ==> Sorted(xs[1..])
    ensures multiset(xs[1..]) == multiset(xs) - multiset{xs[0]}
  {
    assert xs == [xs[0]] + xs[1..];
  }

  // ---------------------------------------------------------------------
  // Ordering the inputs

  lemma {:induction false} RejoinAllAt(ps: seq<Pair>, i: int)
    requires 0 <= i < |ps|
    ensures RejoinAll(ps)[i] == Rejoin(ps[i])
  {
    if i > 0 {
      RejoinAllAt(ps[1..], i - 1);
    }
  }

  /** Rejoining after an insertion gives the names rejoined before, plus
      the inserted one. */
  lemma {:induction false} RejoinInsert(x: Pair, xs: seq<Pair>)
    requires Sorted(xs)
    ensures multiset(RejoinAll(Insert(x, xs))) == multiset(RejoinAll(xs)) + multiset{Rejoin(x)}
  {
    if |xs| > 0 && !PairLe(x, xs[0]) {
      TailMultiset(xs);
      RejoinInsert(x, xs[1..]);
      var rest := Insert(x, xs[1..]);
      assert Insert(x, xs) == [xs[0]] + rest;
      assert ([xs[0]] + rest)[1..] == rest;
    }
  }

  /** Sorting the pairs does not change which names come out when they are
      rejoined. */
  lemma {:induction false} RejoinSort(xs: seq<Pair>)
    ensures multiset(RejoinAll(Sort(xs))) == multiset(RejoinAll(xs))
  {
    if |xs| > 0 {
      RejoinSort(xs[1..]);
      RejoinInsert(xs[0], Sort(xs[1..]));
    }
  }

  /** The input order of the post-processor: split every name, sort the
      pairs, and rejoin them. The result lists the same names, ordered by
      the part after the first four characters and, within equal parts, by
      the 4-character prefix. */
  function OrderInputs(names: seq<string>): (r: seq<string>)
    ensures |r| == |names|
    ensures multiset(r) == multiset(names)
    ensures forall i, j :: 0 <= i < j < |r| ==> PairLe(SplitName(r[i]), SplitName(r[j]))
  {
    var pairs := SplitAll(names);
    var sorted := Sort(pairs);
    RejoinSort(pairs);
    SplitAllRejoins(names);
    assert |sorted| == |names| by {
      assert |sorted| == |multiset(sorted)| == |multiset(pairs)| == |pairs|;
    }
    forall i | 0 <= i < |sorted| ensures SplitName(RejoinAll(sorted)[i]) == sorted[i] {
      RejoinAllAt(sorted, i);
      SplitOfRejoin(names, sorted[i]);
    }
    RejoinAll(sorted)
  }

  /** Rejoining the split names gives the names back. */
  lemma SplitAllRejoins(names: seq<string>)
    ensures RejoinAll(SplitAll(names)) == names
  {
    var pairs := SplitAll(names);
    forall i | 0 <= i < |pairs| ensures RejoinAll(pairs)[i] == names[i] {
      RejoinAllAt(pairs, i);
    }
  }

  /** A pair that came from splitting a name splits back to itself once
      rejoined. */
  lemma SplitOfRejoin(names: seq<string>, p: Pair)
    requires p in multiset(SplitAll(names))
    ensures SplitName(Rejoin(p)) == p
  {
    var pairs := SplitAll(names);
    var k :| 0 <= k < |pairs| && pairs[k] == p;
  }

  /** Names with equal tails come out ordered by their 4-character prefix,
      and the tails themselves come out in string order. */
  lemma GroupedByTail(names: seq<string>, i: int, j: int)
    requires 0 <= i < j < |names|
    ensures var r := OrderInputs(names);
      StrLe(SplitName(r[i]).0, SplitName(r[j]).0)
      && (SplitName(r[i]).0 == SplitName(r[j]).0 ==> StrLe(SplitName(r[i]).1, SplitName(r[j]).1))
  {
    var r := OrderInputs(names);
    assert PairLe(SplitName(r[i]), SplitName(r[j]));
    if SplitName(r[i]).0 == SplitName(r[j]).0 {
      StrLeReflexive(SplitName(r[i]).0);
    }
  }

  /** Three chapters of two recordings, listed out of order, are visited
      recording by recording and chapter by chapter. */
  lemma ChaptersInOrder(names: seq<string>)
    requires names == ["GX010002.mp4", "GX020001.mp4", "GX010001.mp4"]
    ensures OrderInputs(names) == ["GX010001.mp4", "GX020001.mp4", "GX010002.mp4"]
  {
    var sorted := [("0001.mp4", "GX01"), ("0001.mp4", "GX02"), ("0002.mp4", "GX01")];
    assert Sort(SplitAll(names)) == sorted by {
      ChaptersSplit();
      ChaptersSorted();
      assert multiset(sorted) == multiset(SplitAll(names));
      SortedPermutationUnique(Sort(SplitAll(names)), sorted);
    }
    ChaptersRejoined();
  }

  lemma ChaptersRejoined()
    ensures RejoinAll([("0001.mp4", "GX01"), ("0001.mp4", "GX02"), ("0002.mp4", "GX01")])
         == ["GX010001.mp4", "GX020001.mp4", "GX010002.mp4"]
  {
    var sorted := [("0001.mp4", "GX01"), ("0001.mp4", "GX02"), ("0002.mp4", "GX01")];
    assert sorted[1..] == [sorted[1], sorted[2]];
    assert sorted[1..][1..] == [sorted[2]];
    assert [sorted[2]][1..] == [];
    assert Rejoin(sorted[0]) == "GX010001.mp4";
    assert Rejoin(sorted[1]) == "GX020001.mp4";
    assert Rejoin(sorted[2]) == "GX010002.mp4";
    assert RejoinAll([sorted[2]]) == ["GX010002.mp4"];
    assert RejoinAll(sorted[1..]) == ["GX020001.mp4", "GX010002.mp4"];
  }

  lemma ChaptersSplit()
    ensures SplitAll(["GX010002.mp4", "GX020001.mp4", "GX010001.mp4"])
         == [("0002.mp4", "GX01"), ("0001.mp4", "GX02"), ("0001.mp4", "GX01")]
  {
    assert "GX010002.mp4"[4..] == "0002.mp4" && "GX010002.mp4"[..4] == "GX01";
    assert "GX020001.mp4"[4..] == "0001.mp4" && "GX020001.mp4"[..4] == "GX02";
    assert "GX010001.mp4"[4..] == "0001.mp4" && "GX010001.mp4"[..4] == "GX01";
  }

  lemma ChaptersSorted()
    ensures Sorted([("0001.mp4", "GX01"), ("0001.mp4", "GX02"), ("0002.mp4", "GX01")])
  {
    assert StrLt("0001.mp4", "0002.mp4") by {
      assert "0001.mp4"[1..] == "001.mp4" && "0002.mp4"[1..] == "002.mp4";
      assert "001.mp4"[1..] == "01.mp4" && "002.mp4"[1..] == "02.mp4";
      assert "01.mp4"[1..] == "1.mp4" && "02.mp4"[1..] == "2.mp4";
    }
    assert StrLe("GX01", "GX02") by {
      assert "GX01"[1..] == "X01" && "GX02"[1..] == "X02";
      assert "X01"[1..] == "01" && "X02"[1..] == "02";
      assert "01"[1..] == "1" && "02"[1..] == "2";
    }
  }

  // ---------------------------------------------------------------------
  // Output names

  /** `fn.split('.')[0]`: the part of `fn` before its first `.`, or all of
      `fn` when it has none. */
  function Basename(fn: string): (b: string)
    ensures b <= fn
    ensures '.' !in b
    ensures |b| < |fn| ==> fn[|b|] == '.'
  {
    if |fn| == 0 || fn[0] == '.' then ""
    else [fn[0]] + Basename(fn[1..])
  }

  /** `basename + '_map.html'`, the name of the map written for `fn`. */
  function MapFileName(fn: string): (m: string)
    ensures |m| >= 9 && m[|m| - 9..] == "_map.html"
    ensures m[..|m| - 9] <= fn && '.' !in m[..|m| - 9]
    ensures |m| - 9 < |fn| ==> fn[|m| - 9] == '.'
  {
    var b := Basename(fn);
    assert (b + "_map.html")[..|b|] == b;
    b + "_map.html"
  }
}
