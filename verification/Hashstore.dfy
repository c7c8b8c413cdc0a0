/**
 The hashrate history: samples are averaged into buckets that get coarser with age.
 Times are milliseconds since the epoch and never negative.  (internal/hashstore/store.go)
 */
module Hashstore {
  import opened Arithmetic

  const MINUTE: int := 60 * 1000
  const HOUR: int := 60 * MINUTE
  const DAY: int := 24 * HOUR

  datatype Sample = Sample(khs: real, at: int)

  predicate TimeOrdered(s: seq<Sample>) {
    && (forall i :: 0 <= i < |s| ==> 0 <= s[i].at)
    && (forall i, j :: 0 <= i < j < |s| ==> s[i].at <= s[j].at)
  }

  function Bucket(t: int, size: int): int
    requires size > 0
  {
    t / size
  }

  function Midpoint(bucket: int, size: int): int
    requires size > 0
  {
    bucket * size + size / 2
  }

  // ----- what belongs to a bucket -----

  function SumIn(s: seq<Sample>, size: int, bucket: int): real
    requires size > 0
  {
    if s == [] then 0.0
    else
      var last := s[|s| - 1];
      SumIn(s[..|s| - 1], size, bucket) + if Bucket(last.at, size) == bucket then last.khs else 0.0
  }

  function CountIn(s: seq<Sample>, size: int, bucket: int): nat
    requires size > 0
  {
    if s == [] then 0
    else CountIn(s[..|s| - 1], size, bucket) + if Bucket(s[|s| - 1].at, size) == bucket then 1 else 0
  }

  predicate IsBucketOf(o: Sample, s: seq<Sample>, size: int)
    requires size > 0
  {
    var q := Bucket(o.at, size);
    o.at == Midpoint(q, size) && IsMean(o.khs, CountIn(s, size, q), SumIn(s, size, q))
  }

  predicate IsMean(mean: real, n: nat, sum: real) {
    n > 0 && mean * (n as real) == sum
  }

  /**
   What downsampling means: one sample for each non-empty bucket and no other, in strictly increasing order, at the
   middle of its bucket, with the mean of all samples in it.
   */
  predicate Averages(out: seq<Sample>, s: seq<Sample>, size: int)
    requires size > 0
  {
    && (forall i :: 0 <= i < |out| ==> IsBucketOf(out[i], s, size))
    && Increasing(out, size)
    && (forall k :: 0 <= k < |s| ==> Has(out, size, Bucket(s[k].at, size)))
  }

  predicate Increasing(out: seq<Sample>, size: int)
    requires size > 0
  {
    forall i, j :: 0 <= i < j < |out| ==> Bucket(out[i].at, size) < Bucket(out[j].at, size)
  }

  predicate Has(s: seq<Sample>, size: int, bucket: int)
    requires size > 0
  {
    exists i :: 0 <= i < |s| && Bucket(s[i].at, size) == bucket
  }

  lemma MidpointInBucket(bucket: int, size: int)
    requires size > 0
    ensures Bucket(Midpoint(bucket, size), size) == bucket
  {
    DivModUnique(Midpoint(bucket, size), size, bucket, size / 2);
  }

  lemma {:induction false} CountsWhatItHas(s: seq<Sample>, size: int, bucket: int)
    requires size > 0
    ensures CountIn(s, size, bucket) > 0 <==> Has(s, size, bucket)
    ensures CountIn(s, size, bucket) == 0 ==> SumIn(s, size, bucket) == 0.0
  {
    if s != [] {
      var n := |s| - 1;
      CountsWhatItHas(s[..n], size, bucket);
      if Has(s[..n], size, bucket) {
        var i :| 0 <= i < n && Bucket(s[..n][i].at, size) == bucket;
        assert Bucket(s[i].at, size) == bucket;
      }
      if i :| 0 <= i < |s| && Bucket(s[i].at, size) == bucket {
        assert i == n || Bucket(s[..n][i].at, size) == bucket;
      }
    }
  }

  // ----- the loop -----

  /** What the loop needs of its input: samples of one bucket stand together, buckets in order. */
  predicate BucketOrdered(s: seq<Sample>, size: int)
    requires size > 0
  {
    forall i, j :: 0 <= i < j < |s| ==> Bucket(s[i].at, size) <= Bucket(s[j].at, size)
  }

  /** All buckets of `s` below `open` have been written; `open` is being filled. */
  predicate Written(out: seq<Sample>, s: seq<Sample>, size: int, open: int)
    requires size > 0
  {
    && (forall i :: 0 <= i < |out| ==> IsBucketOf(out[i], s, size) && Bucket(out[i].at, size) < open)
    && Increasing(out, size)
    && (forall k :: 0 <= k < |s| ==>
          Bucket(s[k].at, size) == open || (Bucket(s[k].at, size) < open && Has(out, size, Bucket(s[k].at, size))))
  }

  lemma OtherBucket(o: Sample, s: seq<Sample>, size: int, x: Sample)
    requires size > 0 && IsBucketOf(o, s, size) && Bucket(x.at, size) != Bucket(o.at, size)
    ensures IsBucketOf(o, s + [x], size)
  {
  }

  lemma FillOpen(out: seq<Sample>, s: seq<Sample>, size: int, open: int, i: int)
    requires size > 0 && 0 <= i < |s| && Written(out, s[..i], size, open) && Bucket(s[i].at, size) == open
    ensures Written(out, s[..i + 1], size, open)
    ensures SumIn(s[..i + 1], size, open) == SumIn(s[..i], size, open) + s[i].khs
    ensures CountIn(s[..i + 1], size, open) == CountIn(s[..i], size, open) + 1
  {
    assert s[..i + 1] == s[..i] + [s[i]] && s[..i + 1][..i] == s[..i];
    forall j | 0 <= j < |out|
      ensures IsBucketOf(out[j], s[..i + 1], size)
    {
      OtherBucket(out[j], s[..i], size, s[i]);
    }
  }

  lemma HasMore(out: seq<Sample>, size: int, bucket: int, o: Sample)
    requires size > 0 && (Has(out, size, bucket) || Bucket(o.at, size) == bucket)
    ensures Has(out + [o], size, bucket)
  {
    if Has(out, size, bucket) {
      var i :| 0 <= i < |out| && Bucket(out[i].at, size) == bucket;
      assert Bucket((out + [o])[i].at, size) == bucket;
    } else {
      assert Bucket((out + [o])[|out|].at, size) == bucket;
    }
  }

  lemma IncreasingMore(out: seq<Sample>, size: int, o: Sample)
    requires size > 0 && Increasing(out, size)
    requires forall i :: 0 <= i < |out| ==> Bucket(out[i].at, size) < Bucket(o.at, size)
    ensures Increasing(out + [o], size)
  {
  }

  lemma Flush(out: seq<Sample>, s: seq<Sample>, size: int, open: int, khs: real)
    requires size > 0 && Written(out, s, size, open)
    requires IsMean(khs, CountIn(s, size, open), SumIn(s, size, open))
    ensures Averages(out + [Sample(khs, Midpoint(open, size))], s, size)
  {
    var o := Sample(khs, Midpoint(open, size));
    MidpointInBucket(open, size);
    IncreasingMore(out, size, o);
    assert IsBucketOf(o, s, size);
    forall k | 0 <= k < |s|
      ensures Has(out + [o], size, Bucket(s[k].at, size))
    {
      HasMore(out, size, Bucket(s[k].at, size), o);
    }
  }

  lemma OpenNext(out: seq<Sample>, s: seq<Sample>, size: int, next: int)
    requires size > 0 && Averages(out, s, size)
    requires forall k :: 0 <= k < |s| ==> Bucket(s[k].at, size) < next
    ensures Written(out, s, size, next) && CountIn(s, size, next) == 0 && SumIn(s, size, next) == 0.0
  {
    CountsWhatItHas(s, size, next);
    forall i | 0 <= i < |out|
      ensures Bucket(out[i].at, size) < next
    {
      CountsWhatItHas(s, size, Bucket(out[i].at, size));
      var k :| 0 <= k < |s| && Bucket(s[k].at, size) == Bucket(out[i].at, size);
    }
  }

  /** Where Go's division puts the start of a sample's bucket; it truncates, so buckets around zero are wider. */
  function Start(t: int, size: int): int
    requires size > 0
  {
    if t >= 0 then t / size * size else -((0 - t) / size * size)
  }

  lemma StartOfBucket(t: int, size: int)
    requires size > 0 && 0 <= t
    ensures Start(t, size) == Bucket(t, size) * size
  {
  }

  lemma SameStart(a: int, b: int, size: int)
    requires size > 0
    ensures a * size == b * size <==> a == b
  {
    MulBound(a - b, size);
  }

  /** The loop's variables: what is written, the open bucket, and the sum and count in it. */
  datatype Progress = Progress(out: seq<Sample>, start: int, sum: real, count: nat)

  function Flushed(p: Progress, size: int): seq<Sample>
    requires size > 0
  {
    if p.count > 0 then p.out + [Sample(p.sum / p.count as real, p.start + size / 2)] else p.out
  }

  function Feed(p: Progress, x: Sample, size: int): Progress
    requires size > 0
  {
    var start := Start(x.at, size);
    if start != p.start then Progress(Flushed(p, size), start, x.khs, 1)
    else Progress(p.out, start, p.sum + x.khs, p.count + 1)
  }

  function FeedAll(s: seq<Sample>, first: int, size: int): Progress
    requires size > 0
  {
    if s == [] then Progress([], first, 0.0, 0)
    else Feed(FeedAll(s[..|s| - 1], first, size), s[|s| - 1], size)
  }

  /** What downsampling writes, for samples in any order. */
  function Downsampled(s: seq<Sample>, size: int): seq<Sample>
    requires size > 0
  {
    if s == [] then [] else Flushed(FeedAll(s, Start(s[0].at, size), size), size)
  }

  method Downsample(samples: seq<Sample>, size: int) returns (out: seq<Sample>)
    requires size > 0
    ensures out == Downsampled(samples, size)
  {
    if |samples| == 0 {
      return [];
    }
    out := [];
    var bucketStart := Start(samples[0].at, size);
    var sum, count := 0.0, 0;
    ghost var first := bucketStart;
    for i := 0 to |samples|
      invariant Progress(out, bucketStart, sum, count) == FeedAll(samples[..i], first, size)
    {
      assert samples[..i + 1][..i] == samples[..i];
      var b := Start(samples[i].at, size);
      if b != bucketStart {
        if count > 0 {
          out := out + [Sample(sum / count as real, bucketStart + size / 2)];
        }
        bucketStart, sum, count := b, 0.0, 0;
      }
      sum := sum + samples[i].khs;
      count := count + 1;
    }
    assert samples[..|samples|] == samples;
    if count > 0 {
      out := out + [Sample(sum / count as real, bucketStart + size / 2)];
    }
  }

  // ----- on samples in order, downsampling averages -----

  predicate NonNegative(s: seq<Sample>) {
    forall x :: x in s ==> 0 <= x.at
  }

  /** The loop stands in bucket `open`, having written all before it. */
  predicate StandsIn(p: Progress, s: seq<Sample>, size: int, open: int)
    requires size > 0
  {
    && p.start == open * size && Written(p.out, s, size, open)
    && p.sum == SumIn(s, size, open) && p.count == CountIn(s, size, open)
  }

  lemma FlushedAverages(p: Progress, s: seq<Sample>, size: int, open: int)
    requires size > 0 && StandsIn(p, s, size, open) && p.count > 0
    ensures Averages(Flushed(p, size), s, size)
  {
    assert IsMean(p.sum / p.count as real, p.count, p.sum);
    Flush(p.out, s, size, open, p.sum / p.count as real);
  }

  lemma FeedStands(p: Progress, s: seq<Sample>, size: int, open: int, i: int)
    requires size > 0 && 0 <= i < |s| && StandsIn(p, s[..i], size, open) && (i == 0 || p.count > 0)
    requires 0 <= s[i].at && open <= Bucket(s[i].at, size) && (i == 0 ==> open == Bucket(s[i].at, size))
    requires forall k :: 0 <= k < i ==> Bucket(s[k].at, size) <= open
    ensures StandsIn(Feed(p, s[i], size), s[..i + 1], size, Bucket(s[i].at, size))
    ensures Feed(p, s[i], size).count > 0
  {
    var next := Bucket(s[i].at, size);
    StartOfBucket(s[i].at, size);
    SameStart(next, open, size);
    if next != open {
      FlushedAverages(p, s[..i], size, open);
      OpenNext(Flushed(p, size), s[..i], size, next);
      FillOpen(Flushed(p, size), s, size, next, i);
    } else {
      FillOpen(p.out, s, size, open, i);
    }
  }

  /** After `n` samples the last one's bucket is open, and what was written stands for the others. */
  predicate Fed(s: seq<Sample>, size: int, n: nat, first: int)
    requires size > 0 && 0 < n <= |s|
  {
    var p := FeedAll(s[..n], first, size);
    p.count > 0 && StandsIn(p, s[..n], size, Bucket(s[n - 1].at, size))
  }

  lemma FeedFirst(s: seq<Sample>, size: int)
    requires size > 0 && s != [] && 0 <= s[0].at
    ensures Fed(s, size, 1, Start(s[0].at, size))
  {
    var first := Start(s[0].at, size);
    StartOfBucket(s[0].at, size);
    assert s[..1][..0] == s[..0] == [];
    FeedStands(Progress([], first, 0.0, 0), s, size, Bucket(s[0].at, size), 0);
    assert FeedAll(s[..1], first, size) == Feed(FeedAll([], first, size), s[0], size);
  }

  lemma FeedNext(s: seq<Sample>, size: int, n: nat, first: int)
    requires size > 0 && 0 < n < |s| && 0 <= s[n].at && BucketOrdered(s, size) && Fed(s, size, n, first)
    ensures Fed(s, size, n + 1, first)
  {
    assert s[..n + 1][..n] == s[..n];
    FeedStands(FeedAll(s[..n], first, size), s, size, Bucket(s[n - 1].at, size), n);
  }

  lemma {:induction false} FeedAllStands(s: seq<Sample>, size: int, n: nat)
    requires size > 0 && 0 < n <= |s| && NonNegative(s) && BucketOrdered(s, size)
    ensures Fed(s, size, n, Start(s[0].at, size))
  {
    assert s[n - 1] in s;
    if n == 1 {
      FeedFirst(s, size);
    } else {
      FeedAllStands(s, size, n - 1);
      FeedNext(s, size, n - 1, Start(s[0].at, size));
    }
  }

  /** On samples whose buckets come in order, downsampling gives exactly the averages. */
  lemma DownsampledAverages(s: seq<Sample>, size: int)
    requires size > 0 && NonNegative(s) && BucketOrdered(s, size)
    ensures Averages(Downsampled(s, size), s, size)
  {
    if s != [] {
      FeedAllStands(s, size, |s|);
      assert s[..|s|] == s;
      FlushedAverages(FeedAll(s, Start(s[0].at, size), size), s, size, Bucket(s[|s| - 1].at, size));
    }
  }

  // ----- what follows from it -----

  /** No sample moves by more than half a bucket. */
  lemma MovesAtMostHalfABucket(t: int, size: int)
    requires size > 0
    ensures -size <= 2 * (t - Midpoint(Bucket(t, size), size)) <= size
  {
    assert t == Bucket(t, size) * size + t % size;
  }

  ghost predicate SameIncreasingSets(one: seq<int>, two: seq<int>) {
    && (forall i, j :: 0 <= i < j < |one| ==> one[i] < one[j])
    && (forall i, j :: 0 <= i < j < |two| ==> two[i] < two[j])
    && forall x :: x in one <==> x in two
  }

  lemma {:induction false} SameAt(one: seq<int>, two: seq<int>, i: nat)
    requires SameIncreasingSets(one, two) && i < |one| && i < |two|
    ensures one[i] == two[i]
    decreases i
  {
    forall j | 0 <= j < i ensures one[j] == two[j] {
      SameAt(one, two, j);
    }
    assert one[i] in one && two[i] in two;
    var p :| 0 <= p < |two| && two[p] == one[i];
    var q :| 0 <= q < |one| && one[q] == two[i];
    assert i <= p && i <= q;
  }

  lemma NotLonger(one: seq<int>, two: seq<int>)
    requires SameIncreasingSets(one, two)
    ensures |one| <= |two|
  {
    if |two| < |one| {
      assert one[|two|] in one;
      var p :| 0 <= p < |two| && two[p] == one[|two|];
      SameAt(one, two, p);
    }
  }

  /** Two strictly increasing lists with the same elements are the same list. */
  lemma SameIncreasing(one: seq<int>, two: seq<int>)
    requires SameIncreasingSets(one, two)
    ensures one == two
  {
    NotLonger(one, two);
    NotLonger(two, one);
    forall i | 0 <= i < |one| ensures one[i] == two[i] {
      SameAt(one, two, i);
    }
  }

  function Buckets(s: seq<Sample>, size: int): (b: seq<int>)
    requires size > 0
    ensures |b| == |s| && forall i :: 0 <= i < |s| ==> b[i] == Bucket(s[i].at, size)
  {
    seq(|s|, i requires 0 <= i < |s| => Bucket(s[i].at, size))
  }

  lemma BucketsOfAverages(out: seq<Sample>, s: seq<Sample>, size: int, x: int)
    requires size > 0 && Averages(out, s, size)
    ensures x in Buckets(out, size) <==> Has(s, size, x)
  {
    CountsWhatItHas(s, size, x);
    if x in Buckets(out, size) {
      var i :| 0 <= i < |out| && Bucket(out[i].at, size) == x;
      assert IsBucketOf(out[i], s, size);
    }
    if Has(s, size, x) {
      var k :| 0 <= k < |s| && Bucket(s[k].at, size) == x;
      assert Has(out, size, x);
    }
  }

  lemma SameMean(a: real, b: real, n: nat, sum: real)
    requires IsMean(a, n, sum) && IsMean(b, n, sum)
    ensures a == b
  {
    assert a == a * (n as real) / n as real;
    assert b == b * (n as real) / n as real;
  }

  lemma SameBucketSameSample(a: Sample, b: Sample, s: seq<Sample>, size: int)
    requires size > 0 && IsBucketOf(a, s, size) && IsBucketOf(b, s, size) && Bucket(a.at, size) == Bucket(b.at, size)
    ensures a == b
  {
    SameMean(a.khs, b.khs, CountIn(s, size, Bucket(a.at, size)), SumIn(s, size, Bucket(a.at, size)));
  }

  /** The description determines the result. */
  lemma AveragesAreUnique(one: seq<Sample>, two: seq<Sample>, s: seq<Sample>, size: int)
    requires size > 0 && Averages(one, s, size) && Averages(two, s, size)
    ensures one == two
  {
    var a, b := Buckets(one, size), Buckets(two, size);
    forall x ensures x in a <==> x in b {
      BucketsOfAverages(one, s, size, x);
      BucketsOfAverages(two, s, size, x);
    }
    assert a == b by { SameIncreasing(a, b); }
    forall i | 0 <= i < |one|
      ensures one[i] == two[i]
    {
      assert Bucket(one[i].at, size) == a[i] == b[i] == Bucket(two[i].at, size);
      SameBucketSameSample(one[i], two[i], s, size);
    }
  }

  lemma {:induction false} AloneInBucket(s: seq<Sample>, size: int, i: int)
    requires size > 0 && Increasing(s, size) && 0 <= i < |s|
    ensures CountIn(s, size, Bucket(s[i].at, size)) == 1 && SumIn(s, size, Bucket(s[i].at, size)) == s[i].khs
  {
    var n := |s| - 1;
    if i < n {
      AloneInBucket(s[..n], size, i);
    } else {
      CountsWhatItHas(s[..n], size, Bucket(s[n].at, size));
    }
  }

  lemma AveragesOfAverages(out: seq<Sample>, s: seq<Sample>, size: int)
    requires size > 0 && Averages(out, s, size)
    ensures Averages(out, out, size)
  {
    forall i | 0 <= i < |out|
      ensures IsBucketOf(out[i], out, size)
      ensures Has(out, size, Bucket(out[i].at, size))
    {
      assert IsBucketOf(out[i], s, size);
      AloneInBucket(out, size, i);
    }
  }

  lemma StartNonNegative(bucket: nat, size: nat)
    ensures 0 <= bucket * size
  {
  }

  lemma AveragesNonNegative(out: seq<Sample>, s: seq<Sample>, size: int)
    requires size > 0 && Averages(out, s, size) && NonNegative(s)
    ensures NonNegative(out)
  {
    forall o | o in out
      ensures 0 <= o.at
    {
      var q := Bucket(o.at, size);
      CountsWhatItHas(s, size, q);
      var k :| 0 <= k < |s| && Bucket(s[k].at, size) == q;
      assert s[k] in s;
      BucketMonotone(0, s[k].at, size);
      StartNonNegative(q, size);
    }
  }

  /** Downsampling again with the same bucket changes nothing. */
  lemma DownsamplingIsIdempotent(s: seq<Sample>, size: int)
    requires size > 0 && NonNegative(s) && BucketOrdered(s, size)
    ensures Downsampled(Downsampled(s, size), size) == Downsampled(s, size)
  {
    var out := Downsampled(s, size);
    DownsampledAverages(s, size);
    AveragesNonNegative(out, s, size);
    AveragesOfAverages(out, s, size);
    DownsampledAverages(out, size);
    AveragesAreUnique(Downsampled(out, size), out, out, size);
  }

  lemma {:induction false} IncreasingSpreads(out: seq<Sample>, size: int)
    requires size > 0 && Increasing(out, size) && out != []
    ensures |out| <= Bucket(out[|out| - 1].at, size) - Bucket(out[0].at, size) + 1
  {
    var n := |out| - 1;
    if n > 0 {
      assert Bucket(out[n - 1].at, size) < Bucket(out[n].at, size);
      IncreasingSpreads(out[..n], size);
    }
  }

  lemma BucketMonotone(s: int, t: int, size: int)
    requires size > 0 && s <= t
    ensures Bucket(s, size) <= Bucket(t, size)
  {
    var q, r := s / size, t / size;
    assert q * size <= s && t < r * size + size;
    assert (q - r) * size == q * size - r * size;
    MulBound(q - r, size);
  }

  /** Samples from a span of `n` buckets leave at most `n` points, and one more because the span may be unaligned. */
  lemma SpanBoundsPoints(out: seq<Sample>, s: seq<Sample>, size: int, lo: int, n: nat)
    requires size > 0 && Averages(out, s, size)
    requires forall k :: 0 <= k < |s| ==> lo <= s[k].at < lo + n * size
    ensures |out| <= n + 1
  {
    if out != [] {
      var first, last := out[0], out[|out| - 1];
      HasSample(first, s, size, lo, n);
      HasSample(last, s, size, lo, n);
      IncreasingSpreads(out, size);
    }
  }

  lemma HasSample(o: Sample, s: seq<Sample>, size: int, lo: int, n: nat)
    requires size > 0 && IsBucketOf(o, s, size)
    requires forall k :: 0 <= k < |s| ==> lo <= s[k].at < lo + n * size
    ensures Bucket(lo, size) <= Bucket(o.at, size) <= Bucket(lo, size) + n
  {
    CountsWhatItHas(s, size, Bucket(o.at, size));
    var k :| 0 <= k < |s| && Bucket(s[k].at, size) == Bucket(o.at, size);
    BucketMonotone(lo, s[k].at, size);
    BucketMonotone(s[k].at, lo + n * size, size);
    Shifted(lo, size, n);
  }

  lemma Shifted(lo: int, size: int, n: nat)
    requires size > 0
    ensures Bucket(lo + n * size, size) == Bucket(lo, size) + n
  {
    var q, r := lo / size, lo % size;
    assert (q + n) * size + r == lo + n * size;
    DivModUnique(lo + n * size, size, q + n, r);
  }
}
