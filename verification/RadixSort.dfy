/** The radix sort: stable counting passes by one decimal digit after the other. */
module RadixSorts {
  import opened StableSorting

  type i64 = x: int | -0x8000_0000_0000_0000 <= x <= 0x7fff_ffff_ffff_ffff

  function CompareInts(x: int, y: int): Ordering {
    if x < y then Less else if x == y then Equal else Greater
  }

  function ByValue(): (i64, i64) -> Ordering {
    (x, y) => CompareInts(x, y)
  }

  function Digit(x: int, exp: int): int
    requires exp > 0
  {
    x / exp % 10
  }

  function ByDigit(exp: int): (i64, i64) -> Ordering
    requires exp > 0
  {
    (x, y) => CompareInts(Digit(x, exp), Digit(y, exp))
  }

  /** The order by the digits that the passes below `m` have used. */
  function ByRemainder(m: int): (i64, i64) -> Ordering
    requires m > 0
  {
    (x, y) => CompareInts(x % m, y % m)
  }

  // ---------------------------------------------------------------- sorting by a minor and then by a major key

  ghost predicate IsLexicographic<T(!new)>(major: (T, T) -> Ordering, minor: (T, T) -> Ordering, both: (T, T) -> Ordering) {
    forall x, y :: both(x, y) == if major(x, y) == Equal then minor(x, y) else major(x, y)
  }

  lemma {:induction false} ClassOfClass<T(!new)>(a: (T, T) -> Ordering, b: (T, T) -> Ordering, both: (T, T) -> Ordering,
                                                 s: seq<T>, x: T)
    requires forall y :: both(x, y) == Equal <==> a(x, y) == Equal && b(x, y) == Equal
    ensures EqualTo(both, s, x) == EqualTo(a, EqualTo(b, s, x), x)
  {
    if s != [] {
      ClassOfClass(a, b, both, s[1..], x);
      var rest := EqualTo(b, s[1..], x);
      if b(x, s[0]) == Equal {
        assert EqualTo(b, s, x)[1..] == rest;
      } else {
        assert EqualTo(b, s, x) == rest;
      }
    }
  }

  lemma {:induction false} ClassMember<T>(cmp: (T, T) -> Ordering, s: seq<T>, x: T, y: T)
    ensures y in EqualTo(cmp, s, x) <==> y in s && cmp(x, y) == Equal
  {
    if s != [] {
      ClassMember(cmp, s[1..], x, y);
      assert s == [s[0]] + s[1..];
    }
  }

  lemma {:induction false} ClassIsSorted<T>(minor: (T, T) -> Ordering, cmp: (T, T) -> Ordering, s: seq<T>, x: T)
    requires IsSorted(minor, s)
    ensures IsSorted(minor, EqualTo(cmp, s, x))
  {
    if s != [] {
      ClassIsSorted(minor, cmp, s[1..], x);
      var rest := EqualTo(cmp, s[1..], x);
      forall k | 0 <= k < |rest|
        ensures Le(minor, s[0], rest[k])
      {
        ClassMember(cmp, s[1..], x, rest[k]);
        var q :| 0 <= q < |s[1..]| && s[1..][q] == rest[k];
        assert s[q + 1] == rest[k];
      }
    }
  }

  /** Two members of a class that is sorted by the minor key. */
  lemma {:induction false} ClassOrdersPair<T>(minor: (T, T) -> Ordering, cmp: (T, T) -> Ordering, s: seq<T>, x: T, i: nat, j: nat)
    requires IsSorted(minor, EqualTo(cmp, s, x)) && i < j < |s| && cmp(x, s[i]) == Equal && cmp(x, s[j]) == Equal
    ensures Le(minor, s[i], s[j])
  {
    var class_, rest := EqualTo(cmp, s, x), EqualTo(cmp, s[1..], x);
    if cmp(x, s[0]) == Equal {
      assert class_[1..] == rest;
    } else {
      assert class_ == rest;
    }
    if i == 0 {
      assert s[j] == s[1..][j - 1];
      ClassMember(cmp, s[1..], x, s[j]);
      var q :| 0 <= q < |rest| && rest[q] == s[j];
      assert class_[0] == s[0] && class_[q + 1] == s[j];
    } else {
      ClassOrdersPair(minor, cmp, s[1..], x, i - 1, j - 1);
    }
  }

  /** Sorting stably by the minor key first and by the major key next sorts by both. */
  lemma MinorThenMajor<T(!new)>(major: (T, T) -> Ordering, minor: (T, T) -> Ordering, both: (T, T) -> Ordering, s: seq<T>)
    requires IsTotalPreorder(major) && IsTotalPreorder(minor) && IsTotalPreorder(both)
    requires IsLexicographic(major, minor, both)
    ensures StableSort(major, StableSort(minor, s)) == StableSort(both, s)
  {
    var s' := StableSort(minor, s);
    var t := StableSort(major, s');
    StableSortSorts(minor, s);
    StableSortSorts(major, s');
    forall i, j | 0 <= i < j < |t|
      ensures Le(both, t[i], t[j])
    {
      if major(t[i], t[j]) == Equal {
        StableSortKeepsOrder(major, s', t[i]);
        ClassIsSorted(minor, major, s', t[i]);
        assert major(t[i], t[i]) == Equal;
        ClassOrdersPair(minor, major, t, t[i], i, j);
      }
    }
    forall x
      ensures EqualTo(both, t, x) == EqualTo(both, s, x)
    {
      ClassOfClass(minor, major, both, t, x);
      StableSortKeepsOrder(major, s', x);
      ClassOfClass(minor, major, both, s', x);
      ClassOfClass(major, minor, both, s', x);
      StableSortKeepsOrder(minor, s, x);
      ClassOfClass(major, minor, both, s, x);
    }
    StableSortCharacterised(both, s, t);
  }

  lemma {:induction false} InsertAgrees<T>(a: (T, T) -> Ordering, b: (T, T) -> Ordering, s: seq<T>, x: T)
    requires forall y :: y in s ==> a(y, x) == b(y, x)
    ensures Insert(a, s, x) == Insert(b, s, x)
  {
    if s != [] {
      assert s[0] in s && forall y :: y in s[1..] ==> y in s;
      InsertAgrees(a, b, s[1..], x);
    }
  }

  /** Orders that agree on the elements sort them alike. */
  lemma {:induction false} SortsAgree<T>(a: (T, T) -> Ordering, b: (T, T) -> Ordering, s: seq<T>)
    requires forall x, y :: x in s && y in s ==> a(x, y) == b(x, y)
    ensures StableSort(a, s) == StableSort(b, s)
  {
    if s != [] {
      var init, last := s[..|s| - 1], s[|s| - 1];
      assert last in s && forall x :: x in init ==> x in s;
      SortsAgree(a, b, init);
      StableSortMultiset(a, init);
      assert forall y :: y in StableSort(a, init) ==> y in multiset(StableSort(a, init));
      InsertAgrees(a, b, StableSort(a, init), last);
    }
  }

  // ---------------------------------------------------------------- digits

  lemma TenTimes(d: int, e: int, m: int)
    ensures (10 * d + e) * m == d * (10 * m) + e * m
  {
    assert (10 * d + e) * m == 10 * d * m + e * m;
    assert 10 * d * m == d * (10 * m);
  }

  lemma DigitScaled(e: int, m: int)
    requires 0 <= e <= 9 && m > 0
    ensures 0 <= e * m <= 9 * m
  {
    assert (9 - e) * m >= 0;
    assert (9 - e) * m == 9 * m - e * m;
  }

  lemma DigitOfRemainder(x: int, m: int)
    requires m > 0
    ensures x % (10 * m) == Digit(x, m) * m + x % m
  {
    var q, r := x / m, x % m;
    var d, e := q / 10, q % 10;
    TenTimes(d, e, m);
    DigitScaled(e, m);
    QuotientAndRemainder(x, 10 * m, d, e * m + r);
  }

  lemma QuotientAndRemainder(x: int, m: int, q: int, r: int)
    requires m > 0 && x == q * m + r && 0 <= r < m
    ensures x / m == q && x % m == r
  {
    var d := x / m - q;
    assert x == x / m * m + x % m;
    assert d * m == r - x % m;
    assert d >= 1 ==> d * m >= m;
    assert d <= -1 ==> d * m <= -m;
  }

  lemma RemainderIsLexicographic(m: int)
    requires m > 0
    ensures IsLexicographic(ByDigit(m), ByRemainder(m), ByRemainder(10 * m))
  {
    forall x: i64, y: i64
      ensures ByRemainder(10 * m)(x, y) ==
              if ByDigit(m)(x, y) == Equal then ByRemainder(m)(x, y) else ByDigit(m)(x, y)
    {
      DigitOfRemainder(x, m);
      DigitOfRemainder(y, m);
      DigitsDecide(Digit(x, m), x % m, Digit(y, m), y % m, m);
    }
  }

  lemma StepsApart(a: int, b: int, m: int)
    requires a < b && m >= 0
    ensures a * m + m <= b * m
  {
    var d := b - a - 1;
    assert d * m >= 0;
    assert b * m == (a + 1 + d) * m == a * m + m + d * m;
  }

  lemma DigitsDecide(a: int, r: int, b: int, q: int, m: int)
    requires 0 <= r < m && 0 <= q < m
    ensures CompareInts(a * m + r, b * m + q) == if a == b then CompareInts(r, q) else CompareInts(a, b)
  {
    if a < b {
      StepsApart(a, b, m);
    } else if b < a {
      StepsApart(b, a, m);
    }
  }

  /** One more pass: what is sorted by the lower digits becomes sorted by one digit more. */
  lemma OnePassMore(s: seq<i64>, m: int)
    requires m > 0
    ensures StableSort(ByDigit(m), StableSort(ByRemainder(m), s)) == StableSort(ByRemainder(10 * m), s)
  {
    RemainderIsLexicographic(m);
    MinorThenMajor(ByDigit(m), ByRemainder(m), ByRemainder(10 * m), s);
  }

  // ---------------------------------------------------------------- one pass

  /** The elements with digit `d`, in order. */
  ghost function Bucket(s: seq<i64>, exp: int, d: int): seq<i64>
    requires exp > 0
  {
    if s == [] then [] else Bucket(s[..|s| - 1], exp, d) + if Digit(s[|s| - 1], exp) == d then [s[|s| - 1]] else []
  }

  /** How many elements have a digit below `d`. */
  ghost function Below(s: seq<i64>, exp: int, d: nat): nat
    requires exp > 0
  {
    if d == 0 then 0 else Below(s, exp, d - 1) + |Bucket(s, exp, d - 1)|
  }

  lemma {:induction false} BucketAppend(s: seq<i64>, t: seq<i64>, exp: int, d: int)
    requires exp > 0
    ensures Bucket(s + t, exp, d) == Bucket(s, exp, d) + Bucket(t, exp, d)
    decreases |t|
  {
    if t == [] {
      assert s + t == s;
    } else {
      BucketAppend(s, t[..|t| - 1], exp, d);
      assert (s + t)[..|s + t| - 1] == s + t[..|t| - 1];
    }
  }

  lemma {:induction false} BucketMember(s: seq<i64>, exp: int, d: int, x: i64)
    requires exp > 0
    ensures x in Bucket(s, exp, d) <==> x in s && Digit(x, exp) == d
  {
    if s != [] {
      BucketMember(s[..|s| - 1], exp, d, x);
      assert s == s[..|s| - 1] + [s[|s| - 1]];
    }
  }

  lemma {:induction false} BucketIsClass(s: seq<i64>, exp: int, x: i64)
    requires exp > 0
    ensures EqualTo(ByDigit(exp), s, x) == Bucket(s, exp, Digit(x, exp))
  {
    if s != [] {
      BucketIsClass(s[1..], exp, x);
      BucketAppend([s[0]], s[1..], exp, Digit(x, exp));
      assert s == [s[0]] + s[1..] && [s[0]][..0] == [];
    }
  }

  lemma {:induction false} AllBelowTen(s: seq<i64>, exp: int)
    requires exp > 0
    ensures Below(s, exp, 10) == |s|
  {
    if s == [] {
      forall d: nat ensures Below(s, exp, d) == 0 { NoneBelow(exp, d); }
    } else {
      AllBelowTen(s[..|s| - 1], exp);
      OneMoreBelow(s, exp, 10);
    }
  }

  lemma {:induction false} NoneBelow(exp: int, d: nat)
    requires exp > 0
    ensures Below([], exp, d) == 0
  {
    if d > 0 {
      NoneBelow(exp, d - 1);
    }
  }

  lemma {:induction false} OneMoreBelow(s: seq<i64>, exp: int, d: nat)
    requires exp > 0 && s != []
    ensures Below(s, exp, d) == Below(s[..|s| - 1], exp, d) + if Digit(s[|s| - 1], exp) < d then 1 else 0
  {
    if d > 0 {
      OneMoreBelow(s, exp, d - 1);
    }
  }

  /** The buckets of the digits below `d`, one after the other. */
  ghost function Buckets(s: seq<i64>, exp: int, d: nat): (r: seq<i64>)
    requires exp > 0
    ensures |r| == Below(s, exp, d)
  {
    if d == 0 then [] else Buckets(s, exp, d - 1) + Bucket(s, exp, d - 1)
  }

  lemma {:induction false} BucketsMember(s: seq<i64>, exp: int, d: nat, x: i64)
    requires exp > 0
    ensures x in Buckets(s, exp, d) ==> Digit(x, exp) < d
  {
    hide Bucket, Below;
    if d > 0 {
      BucketsMember(s, exp, d - 1, x);
      BucketMember(s, exp, d - 1, x);
    }
  }

  lemma EmptyBucket(exp: int, d: int)
    requires exp > 0
    ensures Bucket([], exp, d) == []
  {
  }

  lemma {:induction false} BucketOfBuckets(s: seq<i64>, exp: int, d: nat, c: nat)
    requires exp > 0
    ensures Bucket(Buckets(s, exp, d), exp, c) == if c < d then Bucket(s, exp, c) else []
  {
    hide Bucket, Below;
    if d == 0 {
      EmptyBucket(exp, c);
    } else {
      BucketOfBuckets(s, exp, d - 1, c);
      BucketAppend(Buckets(s, exp, d - 1), Bucket(s, exp, d - 1), exp, c);
      BucketOfBucket(s, exp, d - 1, c);
    }
  }

  lemma {:induction false} BucketOfBucket(s: seq<i64>, exp: int, d: int, c: int)
    requires exp > 0
    ensures Bucket(Bucket(s, exp, d), exp, c) == if c == d then Bucket(s, exp, d) else []
  {
    if s != [] {
      var init, last := s[..|s| - 1], s[|s| - 1];
      BucketOfBucket(init, exp, d, c);
      if Digit(last, exp) == d {
        assert Bucket(s, exp, d)[..|Bucket(init, exp, d)|] == Bucket(init, exp, d);
      } else {
        assert Bucket(s, exp, d) == Bucket(init, exp, d);
      }
    }
  }

  lemma {:induction false} BucketsSorted(s: seq<i64>, exp: int, d: nat)
    requires exp > 0
    ensures IsSorted(ByDigit(exp), Buckets(s, exp, d))
  {
    if d > 0 {
      BucketsSorted(s, exp, d - 1);
      var front, back := Buckets(s, exp, d - 1), Bucket(s, exp, d - 1);
      forall i, j | 0 <= i < j < |front + back|
        ensures Le(ByDigit(exp), (front + back)[i], (front + back)[j])
      {
        if j >= |front| {
          assert (front + back)[j] == back[j - |front|];
          BucketMember(s, exp, d - 1, back[j - |front|]);
          if i < |front| {
            BucketsMember(s, exp, d - 1, front[i]);
          } else {
            BucketMember(s, exp, d - 1, back[i - |front|]);
          }
        }
      }
    }
  }

  /** Laying the buckets end to end is the stable sort by the digit. */
  lemma BucketsAreStableSort(s: seq<i64>, exp: int)
    requires exp > 0
    ensures Buckets(s, exp, 10) == StableSort(ByDigit(exp), s)
  {
    var t := Buckets(s, exp, 10);
    BucketsSorted(s, exp, 10);
    forall x: i64
      ensures EqualTo(ByDigit(exp), t, x) == EqualTo(ByDigit(exp), s, x)
    {
      BucketIsClass(t, exp, x);
      BucketIsClass(s, exp, x);
      BucketOfBuckets(s, exp, 10, Digit(x, exp));
    }
    StableSortCharacterised(ByDigit(exp), s, t);
  }

  /** The stretch of digit `c` holds the bucket of that digit. */
  ghost predicate IsInPlace(s: seq<i64>, exp: int, t: seq<i64>, c: nat)
    requires exp > 0
  {
    && Below(s, exp, c) <= Below(s, exp, c + 1) <= |t|
    && t[Below(s, exp, c)..Below(s, exp, c + 1)] == Bucket(s, exp, c)
  }

  /** A sequence that has each bucket in its place is the buckets end to end. */
  lemma {:induction false} PlacedBuckets(s: seq<i64>, exp: int, t: seq<i64>, d: nat)
    requires exp > 0 && Below(s, exp, d) <= |t|
    requires forall c: nat :: c < d ==> IsInPlace(s, exp, t, c)
    ensures t[..Below(s, exp, d)] == Buckets(s, exp, d)
  {
    hide Bucket;
    if d > 0 {
      assert IsInPlace(s, exp, t, d - 1);
      PlacedBuckets(s, exp, t, d - 1);
      assert t[..Below(s, exp, d)] == t[..Below(s, exp, d - 1)] + t[Below(s, exp, d - 1)..Below(s, exp, d)];
    }
  }

  lemma {:induction false} BelowGrows(s: seq<i64>, exp: int, c: nat, d: nat)
    requires exp > 0 && c <= d
    ensures Below(s, exp, c) <= Below(s, exp, d)
  {
    if c < d {
      BelowGrows(s, exp, c, d - 1);
    }
  }

  /** Each count is the size of a bucket. */
  ghost predicate IsTally(count: seq<nat>, s: seq<i64>, exp: int)
    requires exp > 0
  {
    |count| == 10 && forall d: nat {:trigger count[d]} :: d < 10 ==> count[d] == |Bucket(s, exp, d)|
  }

  lemma TallyOne(count: seq<nat>, s: seq<i64>, exp: int, i: nat)
    requires exp > 0 && i < |s| && IsTally(count, s[..i], exp)
    ensures var d := Digit(s[i], exp); IsTally(count[d := count[d] + 1], s[..i + 1], exp)
  {
    assert s[..i + 1][..i] == s[..i];
  }

  /** The counts of the digits below `k` are summed up: each is where the next bucket starts. */
  ghost predicate IsSummed(count: seq<nat>, s: seq<i64>, exp: int, k: nat)
    requires exp > 0
  {
    && |count| == 10
    && forall d: nat {:trigger count[d]} :: d < 10 ==>
         count[d] == if d < k then Below(s, exp, d + 1) else |Bucket(s, exp, d)|
  }

  /** The elements from `i` on stand at the ends of the stretches of their buckets. */
  ghost predicate IsPlaced(count: seq<nat>, output: seq<i64>, s: seq<i64>, exp: int, i: nat)
    requires exp > 0 && i <= |s|
  {
    |count| == 10 && |output| == |s| && forall d: nat {:trigger count[d]} :: d < 10 ==> BucketPlaced(count[d], output, s, exp, i, d)
  }

  ghost predicate BucketPlaced(c: nat, output: seq<i64>, s: seq<i64>, exp: int, i: nat, d: nat)
    requires exp > 0 && i <= |s|
  {
    && c == Below(s, exp, d) + |Bucket(s[..i], exp, d)|
    && c <= Below(s, exp, d + 1) <= |output|
    && output[c..Below(s, exp, d + 1)] == Bucket(s[i..], exp, d)
  }

  lemma NothingPlaced(count: seq<nat>, output: seq<i64>, s: seq<i64>, exp: int)
    requires exp > 0 && IsSummed(count, s, exp, 10) && |output| == |s|
    ensures IsPlaced(count, output, s, exp, |s|)
  {
    AllBelowTen(s, exp);
    assert s[..|s|] == s;
    forall d: nat {:trigger count[d]} | d < 10
      ensures BucketPlaced(count[d], output, s, exp, |s|, d)
    {
      BelowGrows(s, exp, d + 1, 10);
      assert s[|s|..] == [];
    }
  }

  /** The element goes right before those of its bucket that are placed already. */
  lemma PlaceOne(count: seq<nat>, output: seq<i64>, s: seq<i64>, exp: int, i: nat)
    requires exp > 0 && 0 < i <= |s| && IsPlaced(count, output, s, exp, i)
    ensures var g := Digit(s[i - 1], exp);
            0 < count[g] <= |output| && IsPlaced(count[g := count[g] - 1], output[count[g] - 1 := s[i - 1]], s, exp, i - 1)
  {
    hide Bucket, Below;
    var g, x := Digit(s[i - 1], exp), s[i - 1];
    assert BucketPlaced(count[g], output, s, exp, i, g);
    BucketSteps(s, exp, i, g);
    var count', output' := count[g := count[g] - 1], output[count[g] - 1 := x];
    forall d: nat {:trigger count'[d]} | d < 10
      ensures BucketPlaced(count'[d], output', s, exp, i - 1, d)
    {
      assert BucketPlaced(count[d], output, s, exp, i, d);
      PlaceOneFor(count[d], output, s, exp, i, d, count[g] - 1);
    }
  }

  lemma PlaceOneFor(c: nat, output: seq<i64>, s: seq<i64>, exp: int, i: nat, d: nat, outIdx: nat)
    requires exp > 0 && 0 < i <= |s| && d < 10 && outIdx < |output| && BucketPlaced(c, output, s, exp, i, d)
    requires var g := Digit(s[i - 1], exp);
             Below(s, exp, g) <= outIdx < Below(s, exp, g + 1) && (g == d ==> c == outIdx + 1)
    ensures BucketPlaced(if Digit(s[i - 1], exp) == d then outIdx else c, output[outIdx := s[i - 1]], s, exp, i - 1, d)
  {
    hide Bucket, Below;
    var g, end, output' := Digit(s[i - 1], exp), Below(s, exp, d + 1), output[outIdx := s[i - 1]];
    BucketSteps(s, exp, i, d);
    if g == d {
      assert output'[outIdx..end] == [s[i - 1]] + output[c..end];
    } else {
      if d < g {
        BelowGrows(s, exp, d + 1, g);
      } else {
        BelowGrows(s, exp, g + 1, d);
      }
      assert output'[c..end] == output[c..end];
    }
  }

  /** The element at `i - 1` moves from the end of the front part of its bucket to the start of the back part. */
  lemma BucketSteps(s: seq<i64>, exp: int, i: nat, d: int)
    requires exp > 0 && 0 < i <= |s|
    ensures var here := if Digit(s[i - 1], exp) == d then [s[i - 1]] else [];
            && Bucket(s[..i], exp, d) == Bucket(s[..i - 1], exp, d) + here
            && Bucket(s[i - 1..], exp, d) == here + Bucket(s[i..], exp, d)
  {
    assert s[..i][..i - 1] == s[..i - 1];
    BucketAppend([s[i - 1]], s[i..], exp, d);
    assert s[i - 1..] == [s[i - 1]] + s[i..] && [s[i - 1]][..0] == [];
  }

  lemma AllPlaced(count: seq<nat>, output: seq<i64>, s: seq<i64>, exp: int)
    requires exp > 0 && IsPlaced(count, output, s, exp, 0)
    ensures output == StableSort(ByDigit(exp), s)
  {
    hide Bucket, Buckets, StableSort;
    forall d: nat | d < 10
      ensures IsInPlace(s, exp, output, d)
    {
      assert BucketPlaced(count[d], output, s, exp, 0, d);
      assert s[0..] == s && s[..0] == [];
      EmptyBucket(exp, d);
    }
    AllBelowTen(s, exp);
    PlacedBuckets(s, exp, output, 10);
    BucketsAreStableSort(s, exp);
    assert output[..|s|] == output;
  }

  /** A stable pass by the digit at `exp`. */
  method CountingSortByDigit(nums: array<i64>, exp: i64)
    requires exp > 0 && forall i :: 0 <= i < nums.Length ==> nums[i] >= 0
    modifies nums
    ensures nums[..] == StableSort(ByDigit(exp), old(nums[..]))
  {
    hide IsTally, IsSummed, IsPlaced;
    var count := new nat[10](_ => 0);
    var output := new i64[nums.Length](_ => 0);
    ghost var s := nums[..];
    NothingCounted(count[..], exp);
    for i := 0 to nums.Length
      invariant nums[..] == s && IsTally(count[..], s[..i], exp)
    {
      var digit := nums[i] / exp % 10;
      TallyOne(count[..], s, exp, i);
      count[digit] := count[digit] + 1;
    }
    assert s[..nums.Length] == s;
    StartSumming(count[..], s, exp);
    for idx := 1 to 10
      invariant nums[..] == s && IsSummed(count[..], s, exp, idx)
    {
      SumOne(count[..], s, exp, idx);
      count[idx] := count[idx] + count[idx - 1];
    }
    NothingPlaced(count[..], output[..], s, exp);
    for idx := nums.Length downto 0
      invariant nums[..] == s && IsPlaced(count[..], output[..], s, exp, idx)
    {
      var digit := nums[idx] / exp % 10;
      PlaceOne(count[..], output[..], s, exp, idx + 1);
      var outIdx := count[digit] - 1;
      output[outIdx] := nums[idx];
      count[digit] := count[digit] - 1;
    }
    AllPlaced(count[..], output[..], s, exp);
    forall i | 0 <= i < nums.Length {
      nums[i] := output[i];
    }
    assert nums[..] == output[..];
  }

  lemma NothingCounted(count: seq<nat>, exp: int)
    requires exp > 0 && |count| == 10 && forall d :: 0 <= d < 10 ==> count[d] == 0
    ensures IsTally(count, [], exp)
  {
  }

  lemma StartSumming(count: seq<nat>, s: seq<i64>, exp: int)
    requires exp > 0 && IsTally(count, s, exp)
    ensures IsSummed(count, s, exp, 1)
  {
  }

  lemma SumOne(count: seq<nat>, s: seq<i64>, exp: int, k: nat)
    requires exp > 0 && 0 < k < 10 && IsSummed(count, s, exp, k)
    ensures IsSummed(count[k := count[k] + count[k - 1]], s, exp, k + 1)
  {
  }

  // ---------------------------------------------------------------- all passes

  ghost function Pow10(k: nat): (r: int)
    ensures r > 0
  {
    if k == 0 then 1 else 10 * Pow10(k - 1)
  }

  lemma {:induction false} Pow10Grows(j: nat, k: nat)
    requires j <= k
    ensures Pow10(j) <= Pow10(k)
  {
    if j < k {
      Pow10Grows(j, k - 1);
    }
  }

  /** The powers of ten that fit are those below the nineteenth. */
  lemma PowersThatFit(k: nat)
    ensures Pow10(k) <= 0x7fff_ffff_ffff_ffff <==> k <= 18
  {
    assert Pow10(3) == 1000 && Pow10(6) == 1_000_000 && Pow10(9) == 1_000_000_000 && Pow10(12) == 1_000_000_000_000;
    assert Pow10(15) == 1_000_000_000_000_000 && Pow10(18) == 1_000_000_000_000_000_000;
    if k <= 18 {
      Pow10Grows(k, 18);
    } else {
      Pow10Grows(19, k);
    }
  }

  lemma {:induction false} NoDigitsUsed(s: seq<i64>)
    ensures StableSort(ByRemainder(1), s) == s
  {
    if s != [] {
      var init, last := s[..|s| - 1], s[|s| - 1];
      NoDigitsUsed(init);
      InsertAt(ByRemainder(1), init, last, |init|);
      assert s == init + [last] + [];
    }
  }

  /** Once the modulus exceeds every element the remainders are the values. */
  lemma AllDigitsUsed(s: seq<i64>, m: int)
    requires m > 0 && forall x :: x in s ==> 0 <= x < m
    ensures StableSort(ByRemainder(m), s) == StableSort(ByValue(), s)
  {
    hide StableSort;
    forall x | x in s
      ensures x % m == x
    {
      QuotientAndRemainder(x, m, 0, x);
    }
    SortsAgree(ByRemainder(m), ByValue(), s);
  }

  /** What the library sort leaves behind: for integers the sorted order is unique, stable or not. */
  lemma SortedOrderIsUnique(s: seq<i64>, t: seq<i64>)
    requires IsSorted(ByValue(), t) && multiset(t) == multiset(s)
    ensures t == StableSort(ByValue(), s)
  {
    forall x
      ensures EqualTo(ByValue(), t, x) == EqualTo(ByValue(), s, x)
    {
      Copies(t, x);
      Copies(s, x);
    }
    StableSortCharacterised(ByValue(), s, t);
  }

  function Repeated(x: i64, n: nat): seq<i64> {
    seq(n, _ => x)
  }

  lemma OneMoreCopy(x: i64, n: nat)
    ensures [x] + Repeated(x, n) == Repeated(x, n + 1) && [] + Repeated(x, n) == Repeated(x, n)
  {
  }

  lemma CopiesBehindFirst(s: seq<i64>, x: i64)
    requires s != []
    ensures multiset(s)[x] == multiset(s[1..])[x] + if s[0] == x then 1 else 0
  {
    assert s == [s[0]] + s[1..];
  }

  lemma {:induction false} Copies(s: seq<i64>, x: i64)
    ensures EqualTo(ByValue(), s, x) == Repeated(x, multiset(s)[x])
  {
    hide Repeated;
    if s == [] {
      NoCopies(x);
    } else {
      Copies(s[1..], x);
      CopiesBehindFirst(s, x);
      OneMoreCopy(x, multiset(s[1..])[x]);
    }
  }

  lemma NoCopies(x: i64)
    ensures Repeated(x, 0) == []
  {
  }

  method SortUnstable(nums: array<i64>)
    modifies nums
    ensures nums[..] == StableSort(ByValue(), old(nums[..]))
  {
    var sorted := StableSort(ByValue(), nums[..]);
    StableSortMultiset(ByValue(), nums[..]);
    forall i | 0 <= i < nums.Length {
      nums[i] := sorted[i];
    }
    assert nums[..] == sorted;
  }

  method MaxValue(nums: array<i64>) returns (m: i64)
    requires nums.Length > 0
    ensures m in nums[..] && forall i :: 0 <= i < nums.Length ==> nums[i] <= m
  {
    m := nums[0];
    for i := 1 to nums.Length
      invariant m in nums[..] && forall q :: 0 <= q < i ==> nums[q] <= m
    {
      if nums[i] >= m {
        m := nums[i];
      }
    }
  }

  /** Every pass keeps the elements, and so their range. */
  lemma SortKeepsRange(cmp: (i64, i64) -> Ordering, s: seq<i64>, m: i64)
    requires forall x :: x in s ==> 0 <= x <= m
    ensures forall x :: x in StableSort(cmp, s) ==> 0 <= x <= m
  {
    hide StableSort;
    StableSortMultiset(cmp, s);
    SameMembers(StableSort(cmp, s), s);
  }

  lemma SameMembers(s: seq<i64>, t: seq<i64>)
    requires multiset(s) == multiset(t)
    ensures forall x :: x in s ==> x in t
  {
    assert forall x :: x in s ==> x in multiset(s);
  }

  /** The passes end when the largest value has no digit left, or when the next power of ten does not fit. */
  method DigitPasses(nums: array<i64>, maxVal: i64) returns (ghost passes: nat, ghost overflowed: bool)
    requires forall x :: x in nums[..] ==> 0 <= x <= maxVal
    modifies nums
    ensures nums[..] == StableSort(ByRemainder(Pow10(passes)), old(nums[..]))
    ensures if overflowed then passes == 19 else maxVal < Pow10(passes)
  {
    hide StableSort, ByRemainder;
    ghost var s := nums[..];
    var exp: i64, stop := 1, false;
    passes := 0;
    NoDigitsUsed(s);
    while !stop && maxVal / exp > 0
      invariant 0 < exp && nums[..] == StableSort(ByRemainder(Pow10(passes)), s)
      invariant if stop then passes == 19 else exp == Pow10(passes)
      decreases !stop, 20 - passes
    {
      SortKeepsRange(ByRemainder(exp), s, maxVal);
      assert forall i :: 0 <= i < nums.Length ==> nums[i] in nums[..];
      CountingSortByDigit(nums, exp);
      OnePassMore(s, exp);
      PowersThatFit(passes);
      PowersThatFit(passes + 1);
      passes := passes + 1;
      if exp * 10 <= 0x7fff_ffff_ffff_ffff {
        exp := exp * 10;
      } else {
        stop := true;
      }
    }
    overflowed := stop;
  }

  method RadixSort(nums: array<i64>)
    modifies nums
    ensures nums[..] == StableSort(ByValue(), old(nums[..]))
  {
    ghost var s := nums[..];
    if nums.Length <= 1 {
      assert s == [] || s == [s[0]];
      return;
    }
    if exists i :: 0 <= i < nums.Length && nums[i] < 0 {
      SortUnstable(nums);
      return;
    }
    var maxVal := MaxValue(nums);
    if maxVal <= 0 {
      AllDigitsUsed(s, 1);
      NoDigitsUsed(s);
      return;
    }
    ghost var passes, overflowed := DigitPasses(nums, maxVal);
    PowersThatFit(19);
    AllDigitsUsed(s, Pow10(passes));
  }
}
