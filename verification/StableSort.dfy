/**
 * What HASH_SRT computes (cutil/uthash.h): bottom-up passes that merge
 * neighbouring runs of doubling length, the left run winning ties.
 */
module StableSort {

  function Min(a: nat, b: nat): nat {
    if a < b then a else b
  }

  function Merge<T>(p: seq<T>, q: seq<T>, cmp: (T, T) -> int): seq<T>
    decreases |p| + |q|
  {
    if p == [] then q
    else if q == [] then p
    else if cmp(p[0], q[0]) <= 0 then [p[0]] + Merge(p[1..], q, cmp)
    else [q[0]] + Merge(p, q[1..], cmp)
  }

  // One pass: merge each run of length k with its right neighbour.
  function Pass<T>(s: seq<T>, k: nat, cmp: (T, T) -> int): seq<T>
    requires k >= 1
  {
    if s == [] then []
    else
      var b, e := Min(k, |s|), Min(2 * k, |s|);
      Merge(s[..b], s[b..e], cmp) + Pass(s[e..], k, cmp)
  }

  // The number of merges of a pass over n items.
  function MergeCount(n: nat, k: nat): nat
    requires k >= 1
  {
    if n == 0 then 0 else 1 + MergeCount(n - Min(2 * k, n), k)
  }

  // All passes: the last is the one that did at most one merge.
  function BottomUp<T>(s: seq<T>, k: nat, cmp: (T, T) -> int): seq<T>
    requires k >= 1
    decreases |s| - k
  {
    PassLength(s, k, cmp);
    if MergeCount(|s|, k) <= 1 then Pass(s, k, cmp)
    else
      OneMerge(|s|, k);
      BottomUp(Pass(s, k, cmp), 2 * k, cmp)
  }

  lemma {:induction false} OneMerge(n: nat, k: nat)
    requires k >= 1
    ensures MergeCount(n, k) <= 1 <==> n <= 2 * k
  {
    if n > 0 {
      OneMerge(n - Min(2 * k, n), k);
    }
  }

  lemma {:induction false} MergeLength<T>(p: seq<T>, q: seq<T>, cmp: (T, T) -> int)
    ensures |Merge(p, q, cmp)| == |p| + |q|
    decreases |p| + |q|
  {
    if p != [] && q != [] {
      if cmp(p[0], q[0]) <= 0 { MergeLength(p[1..], q, cmp); } else { MergeLength(p, q[1..], cmp); }
    }
  }

  // What is still to be emitted of two runs of s.
  function RestOf<T>(s: seq<T>, i: nat, b: nat, j: nat, e: nat, cmp: (T, T) -> int): seq<T>
    requires i <= b <= |s| && j <= e <= |s|
  {
    Merge(s[i..b], s[j..e], cmp)
  }

  // Nothing emitted yet: the rest is the merge of the two runs.
  lemma RestIsMerge<T>(s: seq<T>, a: nat, b: nat, e: nat, cmp: (T, T) -> int)
    requires a <= b <= e <= |s|
    ensures RestOf(s, a, b, b, e, cmp) == Merge(s[a..b], s[b..e], cmp)
  {
  }

  lemma TakeLeft<T>(out: seq<T>, s: seq<T>, i: nat, b: nat, j: nat, e: nat, cmp: (T, T) -> int)
    requires i < b <= |s| && j <= e <= |s| && (j < e ==> cmp(s[i], s[j]) <= 0)
    ensures out + RestOf(s, i, b, j, e, cmp) == (out + [s[i]]) + RestOf(s, i + 1, b, j, e, cmp)
  {
    assert s[i..b][1..] == s[i + 1..b];
    if j == e {
      assert s[i..b] == [s[i]] + s[i + 1..b];
    }
    ShiftOne(out, s[i], RestOf(s, i + 1, b, j, e, cmp));
  }

  lemma TakeRight<T>(out: seq<T>, s: seq<T>, i: nat, b: nat, j: nat, e: nat, cmp: (T, T) -> int)
    requires i <= b <= |s| && j < e <= |s| && (i < b ==> cmp(s[i], s[j]) > 0)
    ensures out + RestOf(s, i, b, j, e, cmp) == (out + [s[j]]) + RestOf(s, i, b, j + 1, e, cmp)
  {
    assert s[j..e][1..] == s[j + 1..e];
    if i == b {
      assert s[j..e] == [s[j]] + s[j + 1..e];
    }
    ShiftOne(out, s[j], RestOf(s, i, b, j + 1, e, cmp));
  }

  lemma MergeOfNothing<T>(out: seq<T>, s: seq<T>, b: nat, e: nat, cmp: (T, T) -> int)
    requires b <= |s| && e <= |s|
    ensures out + RestOf(s, b, b, e, e, cmp) == out
  {
  }

  lemma ShiftOne<T>(out: seq<T>, x: T, rest: seq<T>)
    ensures out + ([x] + rest) == (out + [x]) + rest
  {
  }

  lemma {:induction false} PassLength<T>(s: seq<T>, k: nat, cmp: (T, T) -> int)
    requires k >= 1
    ensures |Pass(s, k, cmp)| == |s|
  {
    if s != [] {
      var b, e := Min(k, |s|), Min(2 * k, |s|);
      MergeLength(s[..b], s[b..e], cmp);
      PassLength(s[e..], k, cmp);
    }
  }

  lemma PassUnfold<T>(t: seq<T>, k: nat, cmp: (T, T) -> int)
    requires k >= 1 && t != []
    ensures Pass(t, k, cmp)
         == Merge(t[..Min(k, |t|)], t[Min(k, |t|)..Min(2 * k, |t|)], cmp) + Pass(t[Min(2 * k, |t|)..], k, cmp)
  {
    hide Merge, Min, MergeCount;
  }

  lemma CountUnfold(n: nat, k: nat)
    requires k >= 1 && n >= 1
    ensures MergeCount(n, k) == 1 + MergeCount(n - Min(2 * k, n), k)
  {
  }

  lemma SliceOfSuffix<T>(s: seq<T>, a: nat, b: nat, e: nat)
    requires a <= |s| && b <= e <= |s| - a
    ensures s[a..][..b] == s[a..a + b] && s[a..][b..e] == s[a + b..a + e] && s[a..][e..] == s[a + e..]
  {
  }

  // The first two runs of what lies behind position a.
  lemma PassStep<T>(s: seq<T>, a: nat, b: nat, e: nat, k: nat, cmp: (T, T) -> int)
    requires k >= 1 && a < b <= e <= |s| && Min(k, |s| - a) == b - a && Min(2 * k, |s| - a) == e - a
    ensures Pass(s[a..], k, cmp) == Merge(s[a..b], s[b..e], cmp) + Pass(s[e..], k, cmp)
  {
    hide Merge, Pass, MergeCount, Min;
    PassUnfold(s[a..], k, cmp);
    SliceOfSuffix(s, a, b - a, e - a);
  }

  // Where the two runs that start at a end.
  lemma RunBounds(n: nat, a: nat, k: nat)
    requires k >= 1 && a < n
    ensures var b := a + Min(k, n - a);
            var e := Min(b + k, n);
            a < b <= e <= n && Min(2 * k, n - a) == e - a
  {
  }

  lemma CountStep(n: nat, a: nat, k: nat)
    requires k >= 1 && a < n
    ensures MergeCount(n - a, k) == 1 + MergeCount(n - Min(a + Min(k, n - a) + k, n), k)
  {
    CountUnfold(n - a, k);
    hide MergeCount;
    assert (n - a) - Min(2 * k, n - a) == n - Min(a + Min(k, n - a) + k, n);
  }

  lemma BottomUpOfNothing<T>(cmp: (T, T) -> int)
    ensures BottomUp<T>([], 1, cmp) == []
  {
  }

  lemma PassOfNothing<T>(k: nat, cmp: (T, T) -> int)
    requires k >= 1
    ensures Pass<T>([], k, cmp) == [] && MergeCount(0, k) == 0
  {
  }

  lemma Regroup<T>(x: seq<T>, y: seq<T>, z: seq<T>)
    ensures x + (y + z) == (x + y) + z
  {
  }

  // ----- ordering

  // cmp is a total preorder on the elements of `all`.
  ghost predicate PreorderOn<T>(cmp: (T, T) -> int, all: set<T>) {
    && (forall x, y :: x in all && y in all ==> cmp(x, y) <= 0 || cmp(y, x) <= 0)
    && (forall x, y, z :: x in all && y in all && z in all && cmp(x, y) <= 0 && cmp(y, z) <= 0 ==> cmp(x, z) <= 0)
  }

  ghost predicate Sorted<T>(s: seq<T>, cmp: (T, T) -> int) {
    forall i, j :: 0 <= i < j < |s| ==> cmp(s[i], s[j]) <= 0
  }

  // Each stretch of k elements is sorted (the last may be shorter).
  ghost predicate RunsSorted<T>(s: seq<T>, k: nat, cmp: (T, T) -> int)
    requires k >= 1
  {
    s == [] || (Sorted(s[..Min(k, |s|)], cmp) && RunsSorted(s[Min(k, |s|)..], k, cmp))
  }

  predicate Same<T>(x: T, y: T, cmp: (T, T) -> int) {
    cmp(x, y) <= 0 && cmp(y, x) <= 0
  }

  // The elements that compare equal to x, in order of appearance.
  function Ties<T>(s: seq<T>, x: T, cmp: (T, T) -> int): seq<T> {
    if s == [] then []
    else (if Same(x, s[0], cmp) then [s[0]] else []) + Ties(s[1..], x, cmp)
  }

  lemma {:induction false} TiesConcat<T>(s: seq<T>, t: seq<T>, x: T, cmp: (T, T) -> int)
    ensures Ties(s + t, x, cmp) == Ties(s, x, cmp) + Ties(t, x, cmp)
  {
    hide Same;
    if s == [] {
      assert s + t == t;
    } else {
      TiesConcat(s[1..], t, x, cmp);
      assert (s + t)[0] == s[0] && (s + t)[1..] == s[1..] + t;
      var first := if Same(x, s[0], cmp) then [s[0]] else [];
      Regroup(first, Ties(s[1..], x, cmp), Ties(t, x, cmp));
    }
  }

  lemma {:induction false} NoTies<T>(s: seq<T>, x: T, cmp: (T, T) -> int)
    requires forall y :: y in s ==> !Same(x, y, cmp)
    ensures Ties(s, x, cmp) == []
  {
    if s != [] {
      NoTies(s[1..], x, cmp);
    }
  }

  lemma MultisetConcat<T>(s: seq<T>, t: seq<T>)
    ensures multiset(s + t) == multiset(s) + multiset(t)
  {
  }

  // The multiset of x in front of m, when m has the elements of b and c.
  lemma TakeFirst<T>(s: seq<T>, m: seq<T>, c: multiset<T>)
    requires s != [] && multiset(m) == multiset(s[1..]) + c
    ensures multiset([s[0]] + m) == multiset(s) + c
  {
    MultisetConcat([s[0]], m);
    MultisetConcat([s[0]], s[1..]);
    assert s == [s[0]] + s[1..];
  }

  lemma SumCommutes<T>(a: multiset<T>, b: multiset<T>)
    ensures a + b == b + a
  {
  }

  lemma MergeUnfold<T>(p: seq<T>, q: seq<T>, cmp: (T, T) -> int)
    requires p != [] && q != []
    ensures Merge(p, q, cmp) ==
              if cmp(p[0], q[0]) <= 0 then [p[0]] + Merge(p[1..], q, cmp) else [q[0]] + Merge(p, q[1..], cmp)
  {
  }

  lemma {:induction false} MergeMultiset<T>(p: seq<T>, q: seq<T>, cmp: (T, T) -> int)
    ensures multiset(Merge(p, q, cmp)) == multiset(p) + multiset(q)
    decreases |p| + |q|
  {
    if p != [] && q != [] {
      hide Merge;
      MergeUnfold(p, q, cmp);
      if cmp(p[0], q[0]) <= 0 {
        MergeMultiset(p[1..], q, cmp);
        TakeFirst(p, Merge(p[1..], q, cmp), multiset(q));
      } else {
        MergeMultiset(p, q[1..], cmp);
        SumCommutes(multiset(p), multiset(q[1..]));
        TakeFirst(q, Merge(p, q[1..], cmp), multiset(p));
        SumCommutes(multiset(p), multiset(q));
      }
    }
  }

  lemma MergeElements<T>(p: seq<T>, q: seq<T>, cmp: (T, T) -> int)
    ensures forall y :: y in Merge(p, q, cmp) <==> y in p || y in q
  {
    MergeMultiset(p, q, cmp);
    forall y
      ensures y in Merge(p, q, cmp) <==> y in p || y in q
    {
      assert y in Merge(p, q, cmp) <==> y in multiset(Merge(p, q, cmp));
      assert y in p <==> y in multiset(p);
      assert y in q <==> y in multiset(q);
    }
  }

  // x is below every element of s.
  ghost predicate Below<T>(x: T, s: seq<T>, cmp: (T, T) -> int) {
    forall y :: y in s ==> cmp(x, y) <= 0
  }

  lemma SortedCons<T>(x: T, s: seq<T>, cmp: (T, T) -> int)
    requires Sorted(s, cmp) && Below(x, s, cmp)
    ensures Sorted([x] + s, cmp)
  {
  }

  lemma SortedTail<T>(s: seq<T>, cmp: (T, T) -> int)
    requires Sorted(s, cmp) && s != []
    ensures Sorted(s[1..], cmp) && Below(s[0], s[1..], cmp)
  {
    forall y | y in s[1..]
      ensures cmp(s[0], y) <= 0
    {
      var i :| 0 <= i < |s[1..]| && s[1..][i] == y;
      assert s[i + 1] == y;
    }
  }

  lemma BelowRun<T>(x: T, s: seq<T>, cmp: (T, T) -> int, all: set<T>)
    requires PreorderOn(cmp, all) && x in all && forall z :: z in s ==> z in all
    requires Sorted(s, cmp) && s != [] && cmp(x, s[0]) <= 0
    ensures Below(x, s, cmp)
  {
    SortedTail(s, cmp);
    forall z | z in s
      ensures cmp(x, z) <= 0
    {
      assert z == s[0] || z in s[1..];
    }
  }

  lemma BelowMerge<T>(x: T, p: seq<T>, q: seq<T>, cmp: (T, T) -> int)
    requires Below(x, p, cmp) && Below(x, q, cmp)
    ensures Below(x, Merge(p, q, cmp), cmp)
  {
    MergeElements(p, q, cmp);
  }

  lemma {:induction false} MergeSorted<T>(p: seq<T>, q: seq<T>, cmp: (T, T) -> int, all: set<T>)
    requires PreorderOn(cmp, all) && forall x :: x in p || x in q ==> x in all
    requires Sorted(p, cmp) && Sorted(q, cmp)
    ensures Sorted(Merge(p, q, cmp), cmp)
    decreases |p| + |q|
  {
    hide Sorted, PreorderOn, Below;
    if p != [] && q != [] {
      SortedTail(p, cmp);
      SortedTail(q, cmp);
      var x, y := p[0], q[0];
      if cmp(x, y) <= 0 {
        MergeSorted(p[1..], q, cmp, all);
        BelowRun(x, q, cmp, all);
        BelowMerge(x, p[1..], q, cmp);
        SortedCons(x, Merge(p[1..], q, cmp), cmp);
      } else {
        MergeSorted(p, q[1..], cmp, all);
        Totality(x, y, cmp, all);
        BelowRun(y, p, cmp, all);
        BelowMerge(y, p, q[1..], cmp);
        SortedCons(y, Merge(p, q[1..], cmp), cmp);
      }
    }
  }

  lemma Totality<T>(x: T, y: T, cmp: (T, T) -> int, all: set<T>)
    requires PreorderOn(cmp, all) && x in all && y in all && cmp(x, y) > 0
    ensures cmp(y, x) <= 0
  {
  }

  // Merging two sorted runs keeps ties in order, the left run first.
  lemma {:induction false} MergeTies<T>(p: seq<T>, q: seq<T>, x: T, cmp: (T, T) -> int, all: set<T>)
    requires PreorderOn(cmp, all) && x in all && forall y :: y in p || y in q ==> y in all
    requires Sorted(p, cmp)
    ensures Ties(Merge(p, q, cmp), x, cmp) == Ties(p, x, cmp) + Ties(q, x, cmp)
    decreases |p| + |q|
  {
    hide Sorted, PreorderOn, Same;
    if p != [] && q != [] {
      if cmp(p[0], q[0]) <= 0 {
        SortedTail(p, cmp);
        MergeTies(p[1..], q, x, cmp, all);
        assert ([p[0]] + Merge(p[1..], q, cmp))[1..] == Merge(p[1..], q, cmp);
      } else {
        MergeTies(p, q[1..], x, cmp, all);
        TakeFromRight(p, q, x, cmp, all);
        assert ([q[0]] + Merge(p, q[1..], cmp))[1..] == Merge(p, q[1..], cmp);
      }
    }
  }

  // An element taken from the right run precedes nothing it ties with on the left.
  lemma TakeFromRight<T>(p: seq<T>, q: seq<T>, x: T, cmp: (T, T) -> int, all: set<T>)
    requires PreorderOn(cmp, all) && p != [] && q != [] && x in all
    requires forall y :: y in p || y in q ==> y in all
    requires Sorted(p, cmp) && cmp(p[0], q[0]) > 0
    ensures Same(x, q[0], cmp) ==> Ties(p, x, cmp) == []
  {
    if Same(x, q[0], cmp) {
      SortedTail(p, cmp);
      forall y | y in p
        ensures !Same(x, y, cmp)
      {
        assert y == p[0] || cmp(p[0], y) <= 0;
      }
      NoTies(p, x, cmp);
    }
  }

  lemma {:induction false} PassMultiset<T>(s: seq<T>, k: nat, cmp: (T, T) -> int)
    requires k >= 1
    ensures multiset(Pass(s, k, cmp)) == multiset(s)
  {
    if s != [] {
      hide Merge;
      var b, e := Min(k, |s|), Min(2 * k, |s|);
      MergeMultiset(s[..b], s[b..e], cmp);
      PassMultiset(s[e..], k, cmp);
      MultisetConcat(Merge(s[..b], s[b..e], cmp), Pass(s[e..], k, cmp));
      SplitInThree(s, b, e);
    }
  }

  lemma SplitInThree<T>(s: seq<T>, b: nat, e: nat)
    requires b <= e <= |s|
    ensures multiset(s) == multiset(s[..b]) + multiset(s[b..e]) + multiset(s[e..])
    ensures s == s[..b] + s[b..e] + s[e..]
  {
    assert s == s[..b] + s[b..e] + s[e..];
    MultisetConcat(s[..b] + s[b..e], s[e..]);
    MultisetConcat(s[..b], s[b..e]);
  }

  // A pass over sorted k-runs gives sorted 2k-runs.
  lemma {:induction false} PassSorts<T>(s: seq<T>, k: nat, cmp: (T, T) -> int, all: set<T>)
    requires k >= 1 && PreorderOn(cmp, all) && (forall x :: x in s ==> x in all)
    requires RunsSorted(s, k, cmp)
    ensures RunsSorted(Pass(s, k, cmp), 2 * k, cmp)
  {
    if s != [] {
      hide Sorted, PreorderOn;
      var b, e := Min(k, |s|), Min(2 * k, |s|);
      var p, q, rest := s[..b], s[b..e], s[e..];
      SecondRun(s, k, cmp);
      MergeSorted(p, q, cmp, all);
      PassSorts(rest, k, cmp, all);
      var m, tail := Merge(p, q, cmp), Pass(rest, k, cmp);
      MergeLength(p, q, cmp);
      PassLength(rest, k, cmp);
      assert (m + tail)[..Min(2 * k, |m + tail|)] == m && (m + tail)[Min(2 * k, |m + tail|)..] == tail;
    }
  }

  // A pass over sorted k-runs keeps ties in order.
  lemma {:induction false} PassTies<T>(s: seq<T>, k: nat, x: T, cmp: (T, T) -> int, all: set<T>)
    requires k >= 1 && PreorderOn(cmp, all) && (forall x :: x in s ==> x in all) && x in all
    requires RunsSorted(s, k, cmp)
    ensures Ties(Pass(s, k, cmp), x, cmp) == Ties(s, x, cmp)
  {
    if s != [] {
      hide Sorted, PreorderOn, Same, Ties, Merge;
      var b, e := Min(k, |s|), Min(2 * k, |s|);
      var p, q, rest := s[..b], s[b..e], s[e..];
      SecondRun(s, k, cmp);
      MergeTies(p, q, x, cmp, all);
      PassTies(rest, k, x, cmp, all);
      TiesConcat(Merge(p, q, cmp), Pass(rest, k, cmp), x, cmp);
      TiesConcat(p, q, x, cmp);
      TiesConcat(p + q, rest, x, cmp);
      SplitInThree(s, b, e);
    }
  }

  lemma SecondRun<T>(s: seq<T>, k: nat, cmp: (T, T) -> int)
    requires k >= 1 && s != [] && RunsSorted(s, k, cmp)
    ensures var b, e := Min(k, |s|), Min(2 * k, |s|);
            Sorted(s[b..e], cmp) && RunsSorted(s[e..], k, cmp)
  {
    hide Sorted, RunsSorted;
    var b, e := Min(k, |s|), Min(2 * k, |s|);
    var t := s[b..];
    RunsUnfold(s, k, cmp);
    SliceOfSuffix(s, b, e - b, e - b);
    if t == [] {
      EmptyRuns(k, cmp);
    } else {
      assert Min(k, |t|) == e - b;
      RunsUnfold(t, k, cmp);
    }
  }

  lemma RunsUnfold<T>(s: seq<T>, k: nat, cmp: (T, T) -> int)
    requires k >= 1 && s != []
    ensures RunsSorted(s, k, cmp) <==> Sorted(s[..Min(k, |s|)], cmp) && RunsSorted(s[Min(k, |s|)..], k, cmp)
  {
    hide Sorted;
  }

  lemma EmptyRuns<T>(k: nat, cmp: (T, T) -> int)
    requires k >= 1
    ensures RunsSorted<T>([], k, cmp) && Sorted<T>([], cmp)
  {
  }

  // The whole sort: a sorted permutation in which ties keep their order.
  lemma {:induction false} BottomUpSorts<T>(s: seq<T>, k: nat, cmp: (T, T) -> int)
    requires k >= 1 && PreorderOn(cmp, set x | x in s)
    requires RunsSorted(s, k, cmp)
    ensures Sorted(BottomUp(s, k, cmp), cmp)
    ensures multiset(BottomUp(s, k, cmp)) == multiset(s)
    ensures forall x :: x in s ==> Ties(BottomUp(s, k, cmp), x, cmp) == Ties(s, x, cmp)
    decreases |s| - k
  {
    var all := set x | x in s;
    var t := Pass(s, k, cmp);
    PassSorts(s, k, cmp, all);
    PassMultiset(s, k, cmp);
    PassLength(s, k, cmp);
    OneMerge(|s|, k);
    if MergeCount(|s|, k) <= 1 {
      assert t[..Min(2 * k, |t|)] == t;
    } else {
      SameElements(s, t);
      BottomUpSorts(t, 2 * k, cmp);
    }
    forall x | x in s
      ensures Ties(BottomUp(s, k, cmp), x, cmp) == Ties(s, x, cmp)
    {
      PassTies(s, k, x, cmp, all);
    }
  }

  lemma SameElements<T>(s: seq<T>, t: seq<T>)
    requires multiset(s) == multiset(t)
    ensures (set x | x in s) == (set x | x in t)
    ensures forall x :: x in s <==> x in t
  {
    forall x
      ensures x in s <==> x in t
    {
      assert x in s <==> x in multiset(s);
      assert x in t <==> x in multiset(t);
    }
  }

  // Runs of length one are sorted, so the sort may start from any list.
  lemma {:induction false} UnitRunsSorted<T>(s: seq<T>, cmp: (T, T) -> int)
    ensures RunsSorted(s, 1, cmp)
  {
    if s != [] {
      UnitRunsSorted(s[1..], cmp);
    }
  }

  // t is s sorted, ties in their old order.
  ghost predicate StablySorted<T>(s: seq<T>, t: seq<T>, cmp: (T, T) -> int) {
    && Sorted(t, cmp) && multiset(t) == multiset(s)
    && forall x :: x in s ==> Ties(t, x, cmp) == Ties(s, x, cmp)
  }

  // From runs of length one on, the passes sort any list stably.
  lemma BottomUpIsStable<T>(s: seq<T>, cmp: (T, T) -> int)
    requires PreorderOn(cmp, set x | x in s)
    ensures StablySorted(s, BottomUp(s, 1, cmp), cmp)
  {
    UnitRunsSorted(s, cmp);
    BottomUpSorts(s, 1, cmp);
  }
}
