/** The in-place sort: insertion-sorted runs of a fixed length, merged in doubling sizes. */
module TimSort {
  import opened StableSorting

  ghost function Pow2(k: nat): (p: nat)
    ensures p > 0
  {
    if k == 0 then 1 else 2 * Pow2(k - 1)
  }

  /**
   * Runs are at most 64 long, and a slice longer than its run has runs of at
   * least 32. The slice makes up at most `2^k` of them, and shorter runs would
   * not do: the merges stay balanced.
   */
  method CalcMinRun(len: nat) returns (run: nat, ghost k: nat)
    ensures len < 64 ==> run == len && k == 0
    ensures len >= 64 ==> 32 <= run <= 64
    ensures len > 0 ==> (run - 1) * Pow2(k) < len <= run * Pow2(k)
  {
    var n: nat, r: nat := len, 0;
    k := 0;
    ghost var low: nat := 0;
    while n >= 64
      invariant (len >= 64 ==> n >= 32) && (len < 64 ==> n == len && k == 0)
      invariant len == n * Pow2(k) + low && low < Pow2(k) && r == if low > 0 then 1 else 0
    {
      Halve(n, Pow2(k), low);
      low := low + n % 2 * Pow2(k);
      k := k + 1;
      r := if n % 2 == 1 then 1 else r;
      n := n / 2;
    }
    run := n + r;
    assert (n + 1) * Pow2(k) == n * Pow2(k) + Pow2(k) && (n - 1) * Pow2(k) == n * Pow2(k) - Pow2(k);
  }

  lemma Halve(n: nat, p: nat, low: nat)
    requires low < p
    ensures n * p + low == n / 2 * (2 * p) + (low + n % 2 * p) && low + n % 2 * p < 2 * p
  {
    var q, b := n / 2, n % 2;
    assert n * p == (2 * q + b) * p == q * (2 * p) + b * p;
  }

  // The contracts below split the array into consecutive parts: what lies before
  // and after the slice being worked on is `pre` and `post`.

  /** Overwriting the first element of `junk` with `x` makes it the last one written. */
  lemma WriteNext<T>(pre: seq<T>, written: seq<T>, junk: seq<T>, post: seq<T>, x: T)
    requires junk != []
    ensures (pre + written + junk + post)[|pre| + |written| := x] == pre + (written + [x]) + junk[1..] + post
  {
  }

  lemma SwapBack<T>(pre: seq<T>, s: seq<T>, x: T, j: nat, post: seq<T>)
    requires 0 < j <= |s|
    ensures var all, k := pre + (s[..j] + [x] + s[j..]) + post, |pre| + j;
            all[k] == x && all[k - 1] == s[j - 1] &&
            all[k := s[j - 1]][k - 1 := x] == pre + (s[..j - 1] + [x] + s[j - 1..]) + post
  {
  }

  /** Sifts the element behind the sorted `s` down to its place. */
  method SiftDown<T(!new)>(arr: array<T>, start: nat, i: nat, cmp: (T, T) -> Ordering,
                           ghost pre: seq<T>, ghost s: seq<T>, ghost x: T, ghost post: seq<T>)
    requires IsTotalPreorder(cmp) && IsSorted(cmp, s)
    requires arr[..] == pre + (s + [x]) + post && start == |pre| && i == start + |s|
    modifies arr
    ensures arr[..] == pre + Insert(cmp, s, x) + post
  {
    hide Insert;
    var j := i;
    assert s[..|s|] == s && s[|s|..] == [] && s + [x] == s[..|s|] + [x] + s[|s|..];
    while j > start && cmp(arr[j], arr[j - 1]) == Less
      invariant start <= j <= i
      invariant arr[..] == pre + (s[..j - start] + [x] + s[j - start..]) + post
      invariant j < i ==> !Le(cmp, s[j - start], x)
    {
      SwapBack(pre, s, x, j - start, post);
      assert arr[j] == arr[..][j] && arr[j - 1] == arr[..][j - 1];
      arr[j], arr[j - 1] := arr[j - 1], arr[j];
      j := j - 1;
    }
    if j > start {
      SwapBack(pre, s, x, j - start, post);
      assert arr[j] == arr[..][j] && arr[j - 1] == arr[..][j - 1];
      assert Le(cmp, s[j - 1 - start], x);
      assert forall k :: 0 <= k < j - 1 - start ==> Le(cmp, s[k], s[j - 1 - start]);
    }
    InsertAt(cmp, s, x, j - start);
  }

  /** Sorts the slice that holds `part` by sifting each element into the sorted prefix. */
  method InsertionSortRange<T(!new)>(arr: array<T>, start: nat, end: nat, cmp: (T, T) -> Ordering,
                                     ghost pre: seq<T>, ghost part: seq<T>, ghost post: seq<T>)
    requires IsTotalPreorder(cmp)
    requires arr[..] == pre + part + post && start == |pre| && end == start + |part|
    modifies arr
    ensures arr[..] == pre + StableSort(cmp, part) + post
  {
    hide IsSorted, IsTotalPreorder;
    var i := start;
    assert pre + part + post == pre + StableSort(cmp, part[..0]) + (part[0..] + post);
    while i < end
      invariant start <= i <= end
      invariant arr[..] == pre + StableSort(cmp, part[..i - start]) + (part[i - start..] + post)
    {
      ghost var k := i - start;
      ghost var sorted := StableSort(cmp, part[..k]);
      StableSortSorts(cmp, part[..k]);
      StableSortMultiset(cmp, part[..k]);
      assert pre + sorted + (part[k..] + post) == pre + (sorted + [part[k]]) + (part[k + 1..] + post);
      SiftDown(arr, start, i, cmp, pre, sorted, part[k], part[k + 1..] + post);
      assert part[..k + 1][..k] == part[..k];
      i := i + 1;
    }
    assert part[..|part|] == part && part[|part|..] + post == post;
  }

  lemma MergeStep<T>(cmp: (T, T) -> Ordering, left: seq<T>, right: seq<T>, i: nat, j: nat, written: seq<T>)
    requires i < |left| && j < |right|
    ensures written + Merge(cmp, left[i..], right[j..]) ==
            if Le(cmp, left[i], right[j]) then (written + [left[i]]) + Merge(cmp, left[i + 1..], right[j..])
            else (written + [right[j]]) + Merge(cmp, left[i..], right[j + 1..])
  {
    assert left[i..][1..] == left[i + 1..] && right[j..][1..] == right[j + 1..];
  }

  lemma MergeRest<T>(cmp: (T, T) -> Ordering, left: seq<T>, right: seq<T>, i: nat, j: nat, written: seq<T>)
    requires (i == |left| && j <= |right|) || (i <= |left| && j == |right|)
    ensures written + Merge(cmp, left[i..], right[j..]) == written + left[i..] + right[j..]
  {
  }

  lemma MergeFew<T>(cmp: (T, T) -> Ordering, a: seq<T>, b: seq<T>)
    requires |a| + |b| <= 1
    ensures Merge(cmp, a, b) == a + b
  {
  }

  /** Merges the adjacent slices that hold `a` and `b` through copies of both. */
  method MergeRange<T(!new)>(arr: array<T>, start: nat, mid: nat, end: nat, cmp: (T, T) -> Ordering,
                             ghost pre: seq<T>, ghost a: seq<T>, ghost b: seq<T>, ghost post: seq<T>)
    requires arr[..] == pre + a + b + post && start == |pre| && mid == start + |a| && end == mid + |b|
    modifies arr
    ensures arr[..] == pre + Merge(cmp, a, b) + post
  {
    hide Merge;
    if end - start <= 1 {
      MergeFew(cmp, a, b);
      assert pre + a + b == pre + (a + b);
      return;
    }
    var left, right := arr[start..mid], arr[mid..end];
    assert left == a && right == b;
    ghost var written, junk := [], a + b;
    var leftIdx, rightIdx, writeIdx := 0, 0, start;
    assert pre + a + b + post == pre + written + junk + post;
    while leftIdx < |left| && rightIdx < |right|
      invariant leftIdx <= |left| && rightIdx <= |right|
      invariant writeIdx == start + |written| && |junk| == |left| - leftIdx + |right| - rightIdx
      invariant arr[..] == pre + written + junk + post
      invariant written + Merge(cmp, left[leftIdx..], right[rightIdx..]) == Merge(cmp, a, b)
    {
      ghost var x := if Le(cmp, left[leftIdx], right[rightIdx]) then left[leftIdx] else right[rightIdx];
      WriteNext(pre, written, junk, post, x);
      MergeStep(cmp, left, right, leftIdx, rightIdx, written);
      if cmp(left[leftIdx], right[rightIdx]) != Greater {
        arr[writeIdx] := left[leftIdx];
        leftIdx := leftIdx + 1;
      } else {
        arr[writeIdx] := right[rightIdx];
        rightIdx := rightIdx + 1;
      }
      written, junk := written + [x], junk[1..];
      writeIdx := writeIdx + 1;
    }
    MergeRest(cmp, left, right, leftIdx, rightIdx, written);
    written, junk, writeIdx := CopyRest(arr, writeIdx, left, leftIdx, pre, written, junk, post);
    written, junk, writeIdx := CopyRest(arr, writeIdx, right, rightIdx, pre, written, junk, post);
    assert junk == [];
    assert pre + written + junk == pre + written;
  }

  /** Writes what is left of `source` behind what has been written. */
  method CopyRest<T(!new)>(arr: array<T>, from: nat, source: seq<T>, idx: nat,
                           ghost pre: seq<T>, ghost written0: seq<T>, ghost junk0: seq<T>, ghost post: seq<T>)
    returns (ghost written: seq<T>, ghost junk: seq<T>, writeIdx: nat)
    requires arr[..] == pre + written0 + junk0 + post && from == |pre| + |written0|
    requires idx <= |source| && |source| - idx <= |junk0|
    modifies arr
    ensures written == written0 + source[idx..] && |junk| == |junk0| - (|source| - idx)
    ensures arr[..] == pre + written + junk + post && writeIdx == |pre| + |written|
  {
    written, junk, writeIdx := written0, junk0, from;
    var i := idx;
    while i < |source|
      invariant idx <= i <= |source|
      invariant written == written0 + source[idx..i] && |junk| == |junk0| - (i - idx)
      invariant arr[..] == pre + written + junk + post && writeIdx == |pre| + |written|
    {
      WriteNext(pre, written, junk, post, source[i]);
      arr[writeIdx] := source[i];
      written, junk := written + [source[i]], junk[1..];
      i, writeIdx := i + 1, writeIdx + 1;
    }
  }

  // ---------------------------------------------------------------- aligned runs

  /** `s` with each aligned run of `size` elements sorted; the last run may be shorter. */
  ghost function Runs<T>(cmp: (T, T) -> Ordering, s: seq<T>, size: nat): seq<T>
    requires size > 0
  {
    if |s| <= size then StableSort(cmp, s)
    else StableSort(cmp, s[..size]) + Runs(cmp, s[size..], size)
  }

  function Min(a: nat, b: nat): nat {
    if a <= b then a else b
  }

  lemma RunsStep<T>(cmp: (T, T) -> Ordering, s: seq<T>, size: nat, cut: nat)
    requires size > 0 && cut == Min(size, |s|)
    ensures Runs(cmp, s, size) == StableSort(cmp, s[..cut]) + Runs(cmp, s[cut..], size)
  {
    if |s| <= size {
      assert s[..cut] == s && s[cut..] == [];
    }
  }

  /** What fits into one run is a run of double size, too. */
  lemma ShortRuns<T>(cmp: (T, T) -> Ordering, s: seq<T>, size: nat)
    requires size > 0 && |s| <= size
    ensures Runs(cmp, s, size) == StableSort(cmp, s) == Runs(cmp, s, size * 2)
    ensures s == [] ==> StableSort(cmp, s) == []
  {
  }

  /** Sorts each run of `minRun` elements by insertion. */
  method SortRuns<T(!new)>(arr: array<T>, minRun: nat, cmp: (T, T) -> Ordering)
    requires IsTotalPreorder(cmp) && minRun > 0
    modifies arr
    ensures arr[..] == Runs(cmp, old(arr[..]), minRun)
  {
    hide StableSort, Runs, IsTotalPreorder;
    var start := 0;
    ghost var input := arr[..];
    ghost var done, rest := [], input;
    while start < arr.Length
      invariant |done| == Min(start, arr.Length) && |done| + |rest| == arr.Length
      invariant arr[..] == done + rest
      invariant done + Runs(cmp, rest, minRun) == Runs(cmp, input, minRun)
    {
      var end := Min(start + minRun, arr.Length);
      ghost var part, later := rest[..end - start], rest[end - start..];
      RunsStep(cmp, rest, minRun, end - start);
      StableSortMultiset(cmp, part);
      assert rest == part + later;
      Reassociate(done, part, [], later);
      InsertionSortRange(arr, start, end, cmp, done, part, later);
      Reassociate(done, StableSort(cmp, part), [], Runs(cmp, later, minRun));
      done, rest := done + StableSort(cmp, part), later;
      start := start + minRun;
    }
    ShortRuns(cmp, rest, minRun);
    assert done + [] == done;
  }

  /**
   * One pass over runs of length `size`: pairs of neighbours are merged, a last
   * run without a neighbour stays, and the runs are then twice as long.
   */
  method MergePass<T(!new)>(arr: array<T>, size: nat, cmp: (T, T) -> Ordering, ghost input: seq<T>)
    requires IsTotalPreorder(cmp) && size > 0
    requires |input| == arr.Length && arr[..] == Runs(cmp, input, size)
    modifies arr
    ensures arr[..] == Runs(cmp, input, size * 2)
  {
    hide StableSort, Runs, IsTotalPreorder;
    var runStart := 0;
    ghost var done, rest := [], input;
    assert [] + Runs(cmp, rest, size) == Runs(cmp, rest, size);
    assert [] + Runs(cmp, rest, size * 2) == Runs(cmp, rest, size * 2);
    while runStart < arr.Length
      invariant |done| == Min(runStart, arr.Length) && |done| + |rest| == arr.Length
      invariant arr[..] == done + Runs(cmp, rest, size)
      invariant done + Runs(cmp, rest, size * 2) == Runs(cmp, input, size * 2)
    {
      var mid := runStart + size;
      if mid >= arr.Length {
        ShortRuns(cmp, rest, size);
        return;
      }
      var end := Min(runStart + size * 2, arr.Length);
      ghost var a, b, later := rest[..size], rest[size..end - runStart], rest[end - runStart..];
      PairOfRuns(cmp, rest, size, a, b, later);
      ghost var sortedA, sortedB, sortedAB := StableSort(cmp, a), StableSort(cmp, b), StableSort(cmp, a + b);
      StableSortMultiset(cmp, a);
      StableSortMultiset(cmp, b);
      StableSortMultiset(cmp, a + b);
      Reassociate(done, sortedA, sortedB, Runs(cmp, later, size));
      MergeRange(arr, runStart, mid, end, cmp, done, sortedA, sortedB, Runs(cmp, later, size));
      MergeSorts(cmp, a, b);
      Reassociate(done, sortedAB, [], Runs(cmp, later, size * 2));
      done, rest := done + sortedAB, later;
      runStart := runStart + size * 2;
    }
    ShortRuns(cmp, rest, size);
  }

  lemma Reassociate<T>(a: seq<T>, b: seq<T>, c: seq<T>, d: seq<T>)
    ensures a + (b + c + d) == a + b + c + d
    ensures c == [] ==> a + (b + d) == (a + b) + d
  {
  }

  /** A slice longer than one run is a pair of runs, which double size makes one, and the rest. */
  lemma PairOfRuns<T>(cmp: (T, T) -> Ordering, s: seq<T>, size: nat, a: seq<T>, b: seq<T>, later: seq<T>)
    requires 0 < size < |s|
    requires var end := Min(size * 2, |s|); a == s[..size] && b == s[size..end] && later == s[end..]
    ensures Runs(cmp, s, size) == StableSort(cmp, a) + StableSort(cmp, b) + Runs(cmp, later, size)
    ensures Runs(cmp, s, size * 2) == StableSort(cmp, a + b) + Runs(cmp, later, size * 2)
  {
    var end := Min(size * 2, |s|);
    PairOfSlices(s, size, end);
    RunsStep(cmp, s[size..], size, end - size);
    RunsStep(cmp, s, size * 2, end);
    Reassociate(StableSort(cmp, a), StableSort(cmp, b), [], Runs(cmp, later, size));
  }

  lemma PairOfSlices<T>(s: seq<T>, i: nat, j: nat)
    requires i <= j <= |s|
    ensures s[i..][..j - i] == s[i..j] && s[i..][j - i..] == s[j..]
    ensures s[..i] + s[i..j] == s[..j]
  {
  }

  /** The array becomes the stable sort of what it held, for every length and every total preorder. */
  method TimSortBy<T(!new)>(arr: array<T>, cmp: (T, T) -> Ordering)
    requires IsTotalPreorder(cmp)
    modifies arr
    ensures arr[..] == StableSort(cmp, old(arr[..]))
  {
    ghost var input := arr[..];
    if arr.Length <= 1 {
      assert arr.Length == 1 ==> input[..0] == [];
      return;
    }
    var minRun, _ := CalcMinRun(arr.Length);
    if arr.Length <= minRun {
      assert input == [] + input + [];
      InsertionSortRange(arr, 0, arr.Length, cmp, [], input, []);
      assert [] + StableSort(cmp, input) + [] == StableSort(cmp, input);
      return;
    }
    SortRuns(arr, minRun, cmp);
    var size := minRun;
    while size < arr.Length
      invariant size > 0
      invariant arr[..] == Runs(cmp, input, size)
    {
      MergePass(arr, size, cmp, input);
      size := size * 2;
    }
  }
}
