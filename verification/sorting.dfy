/** The release-date quicksort of utils.c: Lomuto partition on
    `release_dates`, every exchange mirrored on `processing_times`. Since
    both arrays are always swapped at the same two indices, the sort is
    modelled on one sequence of (r_j, p_j) jobs; `SwapZip` shows that the
    two pictures agree. The sort rearranges an instance and never changes
    its number of jobs. */
module Sorting {
  import opened Scheduling

  datatype Job = Job(release: int, processing: int)

  /** swap(): exactly the two cells change, each taking the other's value. */
  function Swap<T>(s: seq<T>, a: int, b: int): (t: seq<T>)
    requires 0 <= a < |s| && 0 <= b < |s|
    ensures |t| == |s| && t[a] == s[b] && t[b] == s[a]
    ensures forall k :: 0 <= k < |s| && k != a && k != b ==> t[k] == s[k]
  {
    s[a := s[b]][b := s[a]]
  }

  /** The jobs of an instance, job j being (r_j, p_j). */
  function Zip(inst: Instance): (js: seq<Job>)
    requires |inst.p| == |inst.r|
    ensures |js| == |inst.r|
    ensures forall k :: 0 <= k < |js| ==> js[k] == Job(inst.r[k], inst.p[k])
  {
    seq(|inst.r|, k requires 0 <= k < |inst.r| => Job(inst.r[k], inst.p[k]))
  }

  /** The two arrays of an instance, rebuilt from its jobs. */
  function Unzip(js: seq<Job>): (inst: Instance)
    ensures |inst.p| == |inst.r| == |js|
    ensures forall k :: 0 <= k < |js| ==> inst.r[k] == js[k].release && inst.p[k] == js[k].processing
  {
    Instance(seq(|js|, k requires 0 <= k < |js| => js[k].processing),
             seq(|js|, k requires 0 <= k < |js| => js[k].release))
  }

  lemma UnzipZip(inst: Instance)
    requires |inst.p| == |inst.r|
    ensures Unzip(Zip(inst)) == inst
  {
    var back := Unzip(Zip(inst));
    assert back.p == inst.p;
    assert back.r == inst.r;
  }

  lemma ZipUnzip(js: seq<Job>)
    ensures Zip(Unzip(js)) == js
  {
  }

  /** Swapping index a with b in both arrays, as lines 87-88 and 92-93 do,
      is swapping job a with job b. */
  lemma SwapZip(inst: Instance, a: int, b: int)
    requires |inst.p| == |inst.r| && 0 <= a < |inst.r| && 0 <= b < |inst.r|
    ensures Zip(Instance(Swap(inst.p, a, b), Swap(inst.r, a, b))) == Swap(Zip(inst), a, b)
  {
  }

  /** `b` is `a` with the jobs at indices [lo, hi) rearranged among
      themselves and every other job in place. */
  ghost predicate Rearranged(a: seq<Job>, b: seq<Job>, lo: int, hi: int)
  {
    && |a| == |b|
    && 0 <= lo <= hi <= |a|
    && a[..lo] == b[..lo] && a[hi..] == b[hi..]
    && multiset(b) == multiset(a)
  }

  /** Release dates non-decreasing over [lo, hi). */
  predicate SortedRange(js: seq<Job>, lo: int, hi: int)
    requires 0 <= lo <= hi <= |js|
  {
    forall a, b :: lo <= a < b < hi ==> js[a].release <= js[b].release
  }

  /* ---------------- rearrangements ---------------- */

  lemma RearrangedRefl(a: seq<Job>, lo: int, hi: int)
    requires 0 <= lo <= hi <= |a|
    ensures Rearranged(a, a, lo, hi)
  {
  }

  lemma SwapMultiset<T>(s: seq<T>, a: int, b: int)
    requires 0 <= a < |s| && 0 <= b < |s|
    ensures multiset(Swap(s, a, b)) == multiset(s)
  {
    assert Swap(s, a, b) == s[a := s[b]][b := s[a]];
  }

  lemma SwapRearranges(a: seq<Job>, lo: int, hi: int, i: int, j: int)
    requires 0 <= lo <= i < hi <= |a| && lo <= j < hi
    ensures Rearranged(a, Swap(a, i, j), lo, hi)
  {
    SwapMultiset(a, i, j);
  }

  lemma RearrangedTrans(a: seq<Job>, b: seq<Job>, c: seq<Job>, lo: int, hi: int)
    requires Rearranged(a, b, lo, hi) && Rearranged(b, c, lo, hi)
    ensures Rearranged(a, c, lo, hi)
  {
  }

  /** A rearrangement of a sub-range is one of any wider range. */
  lemma RearrangedWiden(a: seq<Job>, b: seq<Job>, lo: int, hi: int, lo': int, hi': int)
    requires Rearranged(a, b, lo, hi) && 0 <= lo' <= lo && hi <= hi' <= |a|
    ensures Rearranged(a, b, lo', hi')
  {
  }

  /** Every job in [lo, hi) of a rearrangement is one of the jobs in
      [lo, hi) before it. */
  lemma RearrangedDrawsFrom(a: seq<Job>, b: seq<Job>, lo: int, hi: int, k: int)
    requires Rearranged(a, b, lo, hi) && lo <= k < hi
    ensures exists k' :: lo <= k' < hi && b[k] == a[k']
  {
    var x := b[k];
    assert a == a[..lo] + a[lo..hi] + a[hi..];
    assert b == a[..lo] + b[lo..hi] + a[hi..];
    assert multiset(b)[x] == multiset(a[..lo])[x] + multiset(b[lo..hi])[x] + multiset(a[hi..])[x];
    assert multiset(a)[x] == multiset(a[..lo])[x] + multiset(a[lo..hi])[x] + multiset(a[hi..])[x];
    assert b[lo..hi][k - lo] == x;
    assert x in multiset(a[lo..hi]);
    var k0 :| 0 <= k0 < hi - lo && a[lo..hi][k0] == x;
    assert x == a[lo + k0];
  }

  /** Bounds on release dates survive a rearrangement. */
  lemma RearrangedBelow(a: seq<Job>, b: seq<Job>, lo: int, hi: int, upper: int)
    requires Rearranged(a, b, lo, hi)
    requires forall k :: lo <= k < hi ==> a[k].release < upper
    ensures forall k :: lo <= k < hi ==> b[k].release < upper
  {
    forall k | lo <= k < hi ensures b[k].release < upper {
      RearrangedDrawsFrom(a, b, lo, hi, k);
    }
  }

  lemma RearrangedAtLeast(a: seq<Job>, b: seq<Job>, lo: int, hi: int, lower: int)
    requires Rearranged(a, b, lo, hi)
    requires forall k :: lo <= k < hi ==> lower <= a[k].release
    ensures forall k :: lo <= k < hi ==> lower <= b[k].release
  {
    forall k | lo <= k < hi ensures lower <= b[k].release {
      RearrangedDrawsFrom(a, b, lo, hi, k);
    }
  }

  /* ---------------- partition ---------------- */

  /** The for-loop of lines 84-90 from index j on, `i` being the last
      index of the prefix of entries below the pivot r[high]. It returns
      the final jobs and i. */
  function PartitionLoop(js: seq<Job>, low: int, high: int, i: int, j: int): (res: (seq<Job>, int))
    requires 0 <= low <= j <= high < |js| && low - 1 <= i < j
    ensures |res.0| == |js|
    ensures low - 1 <= res.1 < high
    decreases high - j
  {
    if j == high then (js, i)
    else if js[j].release < js[high].release then PartitionLoop(Swap(js, i + 1, j), low, high, i + 1, j + 1)
    else PartitionLoop(js, low, high, i, j + 1)
  }

  /** The loop invariant: if entries [low, i] are below the pivot and
      entries (i, j) at least the pivot, then at the end entries [low, i']
      are below it and entries (i', high) at least it, and the pivot has
      not moved. */
  lemma {:induction false} PartitionLoopOrders(js: seq<Job>, low: int, high: int, i: int, j: int)
    requires 0 <= low <= j <= high < |js| && low - 1 <= i < j
    requires forall k :: low <= k <= i ==> js[k].release < js[high].release
    requires forall k :: i < k < j ==> js[k].release >= js[high].release
    ensures var (out, i') := PartitionLoop(js, low, high, i, j);
      && out[high] == js[high]
      && (forall k :: low <= k <= i' ==> out[k].release < js[high].release)
      && (forall k :: i' < k < high ==> out[k].release >= js[high].release)
    decreases high - j
  {
    if j < high {
      if js[j].release < js[high].release {
        var next := Swap(js, i + 1, j);
        assert next[high] == js[high];
        PartitionLoopOrders(next, low, high, i + 1, j + 1);
      } else {
        PartitionLoopOrders(js, low, high, i, j + 1);
      }
    }
  }

  /** The loop only exchanges jobs of [low, high), and leaves every other job in place. */
  lemma {:induction false} PartitionLoopRearranges(js: seq<Job>, low: int, high: int, i: int, j: int)
    requires 0 <= low <= j <= high < |js| && low - 1 <= i < j
    ensures Rearranged(js, PartitionLoop(js, low, high, i, j).0, low, high)
    decreases high - j
  {
    if j == high {
      RearrangedRefl(js, low, high);
    } else if js[j].release < js[high].release {
      var next := Swap(js, i + 1, j);
      var out := PartitionLoop(next, low, high, i + 1, j + 1).0;
      assert Rearranged(js, next, low, high) by { SwapRearranges(js, low, high, i + 1, j); }
      assert Rearranged(next, out, low, high) by { PartitionLoopRearranges(next, low, high, i + 1, j + 1); }
      RearrangedTrans(js, next, out, low, high);
    } else {
      PartitionLoopRearranges(js, low, high, i, j + 1);
    }
  }

  /** partition(): the pivot r[high] moves to the returned index pi in
      [low, high]; everything before it in the range is smaller and
      everything after it is at least as large. */
  function Partition(js: seq<Job>, low: int, high: int): (res: (seq<Job>, int))
    requires 0 <= low <= high < |js|
    ensures |res.0| == |js|
    ensures low <= res.1 <= high
    ensures res.0[res.1] == js[high]
    ensures forall k :: low <= k < res.1 ==> res.0[k].release < res.0[res.1].release
    ensures forall k :: res.1 < k <= high ==> res.0[k].release >= res.0[res.1].release
  {
    PartitionLoopOrders(js, low, high, low - 1, low);
    var (mid, i) := PartitionLoop(js, low, high, low - 1, low);
    (Swap(mid, i + 1, high), i + 1)
  }

  /** The jobs of [low, high] are only rearranged among themselves. */
  lemma PartitionRearranges(js: seq<Job>, low: int, high: int)
    requires 0 <= low <= high < |js|
    ensures Rearranged(js, Partition(js, low, high).0, low, high + 1)
  {
    var loop := PartitionLoop(js, low, high, low - 1, low);
    var mid := loop.0;
    var out := Swap(mid, loop.1 + 1, high);
    assert Partition(js, low, high).0 == out;
    assert Rearranged(js, mid, low, high + 1) by {
      PartitionLoopRearranges(js, low, high, low - 1, low);
      RearrangedWiden(js, mid, low, high, low, high + 1);
    }
    assert Rearranged(mid, out, low, high + 1) by {
      SwapRearranges(mid, low, high + 1, loop.1 + 1, high);
    }
    RearrangedTrans(js, mid, out, low, high + 1);
  }

  /* ---------------- quicksort ---------------- */

  /** One level of quicksort: a partition of [low, high] around the
      pivot at pi, then rearranging and sorting each side, sorts and
      rearranges the whole range. */
  lemma QuickSortStep(js: seq<Job>, mid: seq<Job>, left: seq<Job>, out: seq<Job>, low: int, pi: int, high: int)
    requires 0 <= low <= pi <= high < |js|
    requires Rearranged(js, mid, low, high + 1)
    requires forall k :: low <= k < pi ==> mid[k].release < mid[pi].release
    requires forall k :: pi < k <= high ==> mid[k].release >= mid[pi].release
    requires Rearranged(mid, left, low, pi) && SortedRange(left, low, pi)
    requires Rearranged(left, out, pi + 1, high + 1) && SortedRange(out, pi + 1, high + 1)
    ensures Rearranged(js, out, low, high + 1) && SortedRange(out, low, high + 1)
  {
    var pivot := mid[pi].release;
    RearrangedBelow(mid, left, low, pi, pivot);
    assert forall k :: pi <= k <= high ==> left[k] == mid[k];
    RearrangedAtLeast(left, out, pi + 1, high + 1, pivot);
    assert forall k :: low <= k <= pi ==> out[k] == left[k];
    RearrangedWiden(mid, left, low, pi, low, high + 1);
    RearrangedWiden(left, out, pi + 1, high + 1, low, high + 1);
    RearrangedTrans(mid, left, out, low, high + 1);
    RearrangedTrans(js, mid, out, low, high + 1);
  }

  /** quicksort(low, high): nothing when low >= high, otherwise partition
      and sort both sides of the pivot. It sorts the release dates of
      [low, high] and only rearranges the jobs of that range; on two jobs
      it is the one partition. */
  method QuickSort(js: seq<Job>, low: int, high: int) returns (out: seq<Job>)
    requires 0 <= low && high < |js|
    ensures |out| == |js|
    ensures low >= high ==> out == js
    ensures low <= high + 1 ==> Rearranged(js, out, low, high + 1) && SortedRange(out, low, high + 1)
    ensures high == low + 1 ==> out == Partition(js, low, high).0
    decreases if low < high then high - low else 0
  {
    if low >= high {
      out := js;
      if low <= high + 1 {
        RearrangedRefl(js, low, high + 1);
      }
    } else {
      var part := Partition(js, low, high);
      var mid, pi := part.0, part.1;
      PartitionRearranges(js, low, high);
      var left := QuickSort(mid, low, pi - 1);
      out := QuickSort(left, pi + 1, high);
      QuickSortStep(js, mid, left, out, low, pi, high);
    }
  }

  /** sort(): quicksort over [0, number_of_jobs - 1]. The sorted instance
      has the same number of jobs, the same multiset of (r_j, p_j) jobs,
      and non-decreasing release dates; two jobs come out as one
      partition leaves them. */
  method Sort(inst: Instance) returns (sorted: Instance)
    requires |inst.p| == |inst.r|
    ensures |sorted.r| == |sorted.p| == |inst.r|
    ensures multiset(Zip(sorted)) == multiset(Zip(inst))
    ensures forall a, b :: 0 <= a < b < |inst.r| ==> sorted.r[a] <= sorted.r[b]
    ensures |inst.r| == 2 ==> Zip(sorted) == Partition(Zip(inst), 0, 1).0
  {
    var js := Zip(inst);
    var out := QuickSort(js, 0, |js| - 1);
    sorted := Unzip(out);
    ZipUnzip(out);
  }

  /** The sort is not stable: of two jobs released together, the partition
      puts the pivot (the later one) first. With Sort's last ensures,
      p = [10, 20], r = [1, 1] is sorted to p = [20, 10]. */
  lemma PartitionSwapsTies()
    ensures Partition([Job(1, 10), Job(1, 20)], 0, 1).0 == [Job(1, 20), Job(1, 10)]
  {
    var js := [Job(1, 10), Job(1, 20)];
    assert PartitionLoop(js, 0, 1, -1, 0) == (js, -1);
    assert Swap(js, 0, 1) == [Job(1, 20), Job(1, 10)];
  }
}
