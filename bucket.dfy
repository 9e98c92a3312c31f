/** BucketDataset: Tensor2Tensor's bucketing. Each element goes to the first
    bucket whose boundary is at least its length; a bucket that reaches its
    batch size is emitted and emptied; at exhaustion the non-empty buckets
    are emitted in bucket order. Elements longer than every boundary are
    dropped. */
module Buckets {
  import opened Common
  import opened Data

  /** The bucket an element of length `length` goes to: the first index whose
      boundary is at least `length`, or none when it exceeds every boundary. */
  function BucketIndex(length: int, boundaries: seq<int>): (r: Option<nat>)
    ensures r.Some? ==> r.value < |boundaries| && length <= boundaries[r.value]
    ensures r.Some? ==> forall j :: 0 <= j < r.value ==> boundaries[j] < length
    ensures r.None? <==> forall j :: 0 <= j < |boundaries| ==> boundaries[j] < length
  {
    if boundaries == [] then None
    else if length <= boundaries[0] then Some(0)
    else match BucketIndex(length, boundaries[1..])
      case None => None
      case Some(i) => Some(i + 1)
  }

  /** The stage's parameters: boundaries, the parallel batch sizes, and the
      length function. */
  datatype Bucketing<!T> = Bucketing(boundaries: seq<int>, batchSizes: seq<int>, lengthFn: T -> int)

  /** `batch_sizes[i]` exists for every bucket. */
  predicate WellFormed<T>(bk: Bucketing<T>)
  {
    |bk.boundaries| <= |bk.batchSizes|
  }

  function BucketOf<T>(bk: Bucketing<T>, x: T): Option<nat>
  {
    BucketIndex(bk.lengthFn(x), bk.boundaries)
  }

  /** The elements of `src` that go to bucket `i`, in source order. */
  function InBucket<T>(bk: Bucketing<T>, src: seq<T>, i: nat): (r: seq<T>)
    ensures |r| <= |src|
    ensures forall k :: 0 <= k < |r| ==> BucketOf(bk, r[k]) == Some(i)
  {
    if src == [] then []
    else
      var x := src[|src| - 1];
      InBucket(bk, src[..|src| - 1], i) + (if BucketOf(bk, x) == Some(i) then [x] else [])
  }

  /** The elements of `src` that go to some bucket, in source order. */
  function Kept<T>(bk: Bucketing<T>, src: seq<T>): (r: seq<T>)
    ensures |r| <= |src|
    ensures forall k :: 0 <= k < |r| ==> BucketOf(bk, r[k]).Some?
  {
    if src == [] then []
    else
      var x := src[|src| - 1];
      Kept(bk, src[..|src| - 1]) + (if BucketOf(bk, x).Some? then [x] else [])
  }

  /** Every element of `b` goes to bucket `i`. */
  ghost predicate AllInBucket<T>(bk: Bucketing<T>, b: seq<T>, i: nat)
  {
    forall k :: 0 <= k < |b| ==> BucketOf(bk, b[k]) == Some(i)
  }

  /** The bucket a batch came from: that of its first element. */
  function BatchBucket<T>(bk: Bucketing<T>, b: seq<T>): Option<nat>
  {
    if b == [] then None else BucketOf(bk, b[0])
  }

  /** The elements of bucket `i` as they appear, in order, in `batches`. */
  function OfBucket<T>(bk: Bucketing<T>, batches: seq<seq<T>>, i: nat): seq<T>
  {
    if batches == [] then []
    else
      var b := batches[|batches| - 1];
      OfBucket(bk, batches[..|batches| - 1], i) + (if BatchBucket(bk, b) == Some(i) then b else [])
  }

  /** The final loop: the non-empty buckets, in bucket order. */
  function Flush<T>(buckets: seq<seq<T>>): (r: seq<seq<T>>)
    ensures |r| <= |buckets|
    ensures forall k :: 0 <= k < |r| ==> r[k] != []
  {
    if buckets == [] then []
    else
      var b := buckets[|buckets| - 1];
      Flush(buckets[..|buckets| - 1]) + (if b != [] then [b] else [])
  }

  /** The generator's state between two source elements. */
  datatype BucketState<T> = BucketState(buckets: seq<seq<T>>, emitted: seq<seq<T>>)

  /** One iteration of the outer loop, on element `x`. */
  function BucketStep<T>(bk: Bucketing<T>, st: BucketState<T>, x: T): (st': BucketState<T>)
    requires WellFormed(bk) && |st.buckets| == |bk.boundaries|
    ensures |st'.buckets| == |st.buckets|
  {
    match BucketOf(bk, x)
    case None => st
    case Some(i) =>
      var b := st.buckets[i] + [x];
      if |b| == bk.batchSizes[i] then BucketState(st.buckets[i := []], st.emitted + [b])
      else BucketState(st.buckets[i := b], st.emitted)
  }

  function EmptyBuckets<T>(n: nat): (r: seq<seq<T>>)
    ensures |r| == n && forall i :: 0 <= i < n ==> r[i] == []
  {
    seq(n, _ => [])
  }

  /** The state after the outer loop has read all of `src`. */
  function BucketRun<T>(bk: Bucketing<T>, src: seq<T>): (st: BucketState<T>)
    requires WellFormed(bk)
    ensures |st.buckets| == |bk.boundaries|
  {
    if src == [] then BucketState(EmptyBuckets(|bk.boundaries|), [])
    else BucketStep(bk, BucketRun(bk, src[..|src| - 1]), src[|src| - 1])
  }

  /** The batches the stage collates: those emitted inside the loop, then
      every non-empty bucket in bucket order. */
  function Bucketed<T>(bk: Bucketing<T>, src: seq<T>): seq<seq<T>>
    requires WellFormed(bk)
  {
    var st := BucketRun(bk, src);
    st.emitted + Flush(st.buckets)
  }

  // ---------------------------------------------------------------------
  // The loop invariant, one predicate per fact

  /** A batch emitted inside the loop: exactly `batch_sizes[i]` elements, all
      of one bucket `i`. */
  ghost predicate FullBatch<T>(bk: Bucketing<T>, b: seq<T>)
  {
    b != [] && BucketOf(bk, b[0]).Some? && BucketOf(bk, b[0]).value < |bk.batchSizes|
    && AllInBucket(bk, b, BucketOf(bk, b[0]).value)
    && |b| == bk.batchSizes[BucketOf(bk, b[0]).value]
  }

  /** A batch emitted at exhaustion: non-empty, all of one bucket `i`, and
      shorter than `batch_sizes[i]` when that is positive. */
  ghost predicate PartialBatch<T>(bk: Bucketing<T>, b: seq<T>)
  {
    b != [] && BucketOf(bk, b[0]).Some? && BucketOf(bk, b[0]).value < |bk.batchSizes|
    && AllInBucket(bk, b, BucketOf(bk, b[0]).value)
    && (bk.batchSizes[BucketOf(bk, b[0]).value] >= 1 ==> |b| < bk.batchSizes[BucketOf(bk, b[0]).value])
  }

  /** Bucket `i` holds only elements of bucket `i`, fewer than its batch
      size when that is positive. */
  ghost predicate WellFilled<T>(bk: Bucketing<T>, buckets: seq<seq<T>>)
  {
    |buckets| <= |bk.batchSizes|
    && forall i :: 0 <= i < |buckets| ==>
         AllInBucket(bk, buckets[i], i)
         && (bk.batchSizes[i] >= 1 ==> |buckets[i]| < bk.batchSizes[i])
  }

  ghost predicate AllFull<T>(bk: Bucketing<T>, emitted: seq<seq<T>>)
  {
    forall k :: 0 <= k < |emitted| ==> FullBatch(bk, emitted[k])
  }

  /** Bucket `i`'s elements read so far: those already emitted, then those
      still buffered. */
  ghost predicate InOrder<T>(bk: Bucketing<T>, src: seq<T>, st: BucketState<T>, i: nat)
    requires i < |st.buckets|
  {
    OfBucket(bk, st.emitted, i) + st.buckets[i] == InBucket(bk, src, i)
  }

  /** Emitted plus buffered is what has been kept. */
  ghost predicate Conserved<T>(bk: Bucketing<T>, src: seq<T>, st: BucketState<T>)
  {
    multiset(Flatten(st.emitted)) + multiset(Flatten(st.buckets)) == multiset(Kept(bk, src))
  }

  // ---------------------------------------------------------------------
  // One step preserves each fact

  lemma StepWellFilled<T>(bk: Bucketing<T>, st: BucketState<T>, x: T)
    requires WellFormed(bk) && |st.buckets| == |bk.boundaries|
    requires WellFilled(bk, st.buckets)
    ensures WellFilled(bk, BucketStep(bk, st, x).buckets)
  {
    match BucketOf(bk, x)
    case None =>
    case Some(j) =>
      var b := st.buckets[j] + [x];
      assert AllInBucket(bk, b, j);
  }

  lemma StepAllFull<T>(bk: Bucketing<T>, st: BucketState<T>, x: T)
    requires WellFormed(bk) && |st.buckets| == |bk.boundaries|
    requires WellFilled(bk, st.buckets) && AllFull(bk, st.emitted)
    ensures AllFull(bk, BucketStep(bk, st, x).emitted)
  {
    match BucketOf(bk, x)
    case None =>
    case Some(j) =>
      var b := st.buckets[j] + [x];
      if |b| == bk.batchSizes[j] {
        assert AllInBucket(bk, b, j);
        assert FullBatch(bk, b);
        var e := st.emitted + [b];
        assert forall k :: 0 <= k < |st.emitted| ==> e[k] == st.emitted[k];
      }
  }

  lemma StepInOrder<T>(bk: Bucketing<T>, src: seq<T>, st: BucketState<T>, x: T, i: nat)
    requires WellFormed(bk) && |st.buckets| == |bk.boundaries| && i < |st.buckets|
    requires WellFilled(bk, st.buckets) && InOrder(bk, src, st, i)
    ensures InOrder(bk, src + [x], BucketStep(bk, st, x), i)
  {
    assert (src + [x])[..|src|] == src;
    match BucketOf(bk, x)
    case None =>
    case Some(j) =>
      var b := st.buckets[j] + [x];
      if |b| == bk.batchSizes[j] {
        assert BatchBucket(bk, b) == Some(j) by {
          if st.buckets[j] != [] {
            assert b[0] == st.buckets[j][0];
          }
        }
        assert (st.emitted + [b])[..|st.emitted|] == st.emitted;
      }
  }

  lemma StepConserved<T>(bk: Bucketing<T>, src: seq<T>, st: BucketState<T>, x: T)
    requires WellFormed(bk) && |st.buckets| == |bk.boundaries|
    requires Conserved(bk, src, st)
    ensures Conserved(bk, src + [x], BucketStep(bk, st, x))
  {
    assert (src + [x])[..|src|] == src;
    match BucketOf(bk, x)
    case None =>
      assert Kept(bk, src + [x]) == Kept(bk, src);
    case Some(j) =>
      assert Kept(bk, src + [x]) == Kept(bk, src) + [x];
      if |st.buckets[j] + [x]| == bk.batchSizes[j] {
        EmitConserves(st.emitted, st.buckets, j, x);
      } else {
        BufferConserves(st.emitted, st.buckets, j, x);
      }
  }

  /** Appending `x` to bucket `j` and emitting the bucket. */
  lemma EmitConserves<T>(emitted: seq<seq<T>>, buckets: seq<seq<T>>, j: nat, x: T)
    requires j < |buckets|
    ensures multiset(Flatten(emitted + [buckets[j] + [x]])) + multiset(Flatten(buckets[j := []]))
         == multiset(Flatten(emitted)) + multiset(Flatten(buckets)) + multiset{x}
  {
    var b := buckets[j] + [x];
    FlattenSnoc(emitted, b);
    FlattenUpdateMultiset(buckets, j, []);
    var e, f := multiset(Flatten(emitted)), multiset(Flatten(buckets));
    var f' := multiset(Flatten(buckets[j := []]));
    assert f' + multiset(buckets[j]) == f;
    calc {
      multiset(Flatten(emitted + [b])) + f';
      (e + multiset(b)) + f';
      (e + (multiset(buckets[j]) + multiset{x})) + f';
      e + (f' + multiset(buckets[j])) + multiset{x};
      e + f + multiset{x};
    }
  }

  /** Appending `x` to bucket `j` and keeping it buffered. */
  lemma BufferConserves<T>(emitted: seq<seq<T>>, buckets: seq<seq<T>>, j: nat, x: T)
    requires j < |buckets|
    ensures multiset(Flatten(emitted)) + multiset(Flatten(buckets[j := buckets[j] + [x]]))
         == multiset(Flatten(emitted)) + multiset(Flatten(buckets)) + multiset{x}
  {
    var b := buckets[j] + [x];
    FlattenUpdateMultiset(buckets, j, b);
    var f, f' := multiset(Flatten(buckets)), multiset(Flatten(buckets[j := b]));
    assert f' + multiset(buckets[j]) == (f + multiset{x}) + multiset(buckets[j]);
    MultisetCancel(f', f + multiset{x}, multiset(buckets[j]));
  }

  lemma MultisetCancel<T>(a: multiset<T>, b: multiset<T>, c: multiset<T>)
    requires a + c == b + c
    ensures a == b
  {
    assert forall y :: a[y] == (a + c)[y] - c[y] == (b + c)[y] - c[y] == b[y];
  }

  lemma {:induction false} EmptyBucketsFlatten<T>(n: nat)
    ensures Flatten(EmptyBuckets<T>(n)) == []
  {
    if n > 0 {
      assert EmptyBuckets<T>(n)[1..] == EmptyBuckets<T>(n - 1);
      EmptyBucketsFlatten<T>(n - 1);
    }
  }

  /** After any prefix of the source, each bucket is well filled. */
  lemma {:induction false} RunWellFilled<T>(bk: Bucketing<T>, src: seq<T>)
    requires WellFormed(bk)
    ensures WellFilled(bk, BucketRun(bk, src).buckets)
  {
    if src != [] {
      RunWellFilled(bk, src[..|src| - 1]);
      StepWellFilled(bk, BucketRun(bk, src[..|src| - 1]), src[|src| - 1]);
    }
  }

  /** After any prefix of the source, every emitted batch is full. */
  lemma {:induction false} RunAllFull<T>(bk: Bucketing<T>, src: seq<T>)
    requires WellFormed(bk)
    ensures AllFull(bk, BucketRun(bk, src).emitted)
  {
    if src != [] {
      var init := src[..|src| - 1];
      RunAllFull(bk, init);
      RunWellFilled(bk, init);
      StepAllFull(bk, BucketRun(bk, init), src[|src| - 1]);
    }
  }

  /** After any prefix of the source, bucket `i` has emitted and buffered
      its elements in source order. */
  lemma {:induction false} RunInOrder<T>(bk: Bucketing<T>, src: seq<T>, i: nat)
    requires WellFormed(bk) && i < |bk.boundaries|
    ensures InOrder(bk, src, BucketRun(bk, src), i)
  {
    if src != [] {
      var init := src[..|src| - 1];
      RunInOrder(bk, init, i);
      RunWellFilled(bk, init);
      StepInOrder(bk, init, BucketRun(bk, init), src[|src| - 1], i);
      assert init + [src[|src| - 1]] == src;
    }
  }

  /** After any prefix of the source, emitted plus buffered is what was
      kept. */
  lemma {:induction false} RunConserved<T>(bk: Bucketing<T>, src: seq<T>)
    requires WellFormed(bk)
    ensures Conserved(bk, src, BucketRun(bk, src))
  {
    if src == [] {
      EmptyBucketsFlatten<T>(|bk.boundaries|);
    } else {
      var init := src[..|src| - 1];
      RunConserved(bk, init);
      StepConserved(bk, init, BucketRun(bk, init), src[|src| - 1]);
      assert init + [src[|src| - 1]] == src;
    }
  }

  // ---------------------------------------------------------------------
  // The final flush

  /** The flush of well-filled buckets: partial batches in strictly
      increasing bucket order (so at most one per bucket). */
  lemma {:induction false} FlushShape<T>(bk: Bucketing<T>, buckets: seq<seq<T>>)
    requires WellFilled(bk, buckets)
    ensures ShapedAt(bk, Flush(buckets), 0)
    ensures forall k :: 0 <= k < |Flush(buckets)| ==> BucketOf(bk, Flush(buckets)[k][0]).value < |buckets|
  {
    if buckets != [] {
      var n := |buckets| - 1;
      var b := buckets[n];
      var f := Flush(buckets[..n]);
      assert WellFilled(bk, buckets[..n]);
      FlushShape(bk, buckets[..n]);
      if b != [] {
        assert AllInBucket(bk, b, n);
        assert BucketOf(bk, b[0]) == Some(n);
        assert PartialBatch(bk, b);
        assert Flush(buckets) == f + [b];
        ShapedSnoc(bk, f, b);
      } else {
        assert Flush(buckets) == f;
      }
    }
  }

  /** A partial batch of a later bucket extends a shaped flush. */
  lemma ShapedSnoc<T>(bk: Bucketing<T>, f: seq<seq<T>>, b: seq<T>)
    requires ShapedAt(bk, f, 0) && PartialBatch(bk, b)
    requires forall k :: 0 <= k < |f| ==> BucketOf(bk, f[k][0]).value < BucketOf(bk, b[0]).value
    ensures ShapedAt(bk, f + [b], 0)
    ensures forall k :: 0 <= k < |f| ==> (f + [b])[k] == f[k]
  {
    var g := f + [b];
    assert forall k :: 0 <= k < |f| ==> g[k] == f[k];
    assert g[|f|] == b;
  }

  /** Per bucket, the flush holds just that bucket's buffer. */
  lemma FlushOfBucket<T>(bk: Bucketing<T>, buckets: seq<seq<T>>, i: nat)
    requires WellFilled(bk, buckets)
    ensures OfBucket(bk, Flush(buckets), i) == if i < |buckets| then buckets[i] else []
  {
    forall j | 0 <= j < |buckets| && buckets[j] != []
      ensures BatchBucket(bk, buckets[j]) == Some(j)
    {
      assert AllInBucket(bk, buckets[j], j);
    }
    FlushOfLabelled(bk, buckets, i);
  }

  /** Each non-empty buffer's batch bucket is its index. */
  ghost predicate Labelled<T>(bk: Bucketing<T>, buckets: seq<seq<T>>)
  {
    forall j :: 0 <= j < |buckets| && buckets[j] != [] ==> BatchBucket(bk, buckets[j]) == Some(j)
  }

  lemma {:induction false} FlushOfLabelled<T>(bk: Bucketing<T>, buckets: seq<seq<T>>, i: nat)
    requires Labelled(bk, buckets)
    ensures OfBucket(bk, Flush(buckets), i) == if i < |buckets| then buckets[i] else []
  {
    if buckets != [] {
      var n := |buckets| - 1;
      var b, init := buckets[n], buckets[..n];
      LabelledPrefix(bk, buckets, n);
      FlushOfLabelled(bk, init, i);
      FlushLastOfBucket(bk, Flush(init), b, n, i);
    }
  }

  lemma LabelledPrefix<T>(bk: Bucketing<T>, buckets: seq<seq<T>>, n: nat)
    requires Labelled(bk, buckets) && n <= |buckets|
    ensures Labelled(bk, buckets[..n])
    ensures forall j :: 0 <= j < n ==> buckets[..n][j] == buckets[j]
  {
    assert forall j :: 0 <= j < n ==> buckets[..n][j] == buckets[j];
  }

  /** The last buffer's contribution to bucket `i` of the flush. */
  lemma FlushLastOfBucket<T>(bk: Bucketing<T>, f: seq<seq<T>>, b: seq<T>, n: nat, i: nat)
    requires b != [] ==> BatchBucket(bk, b) == Some(n)
    ensures OfBucket(bk, f + (if b != [] then [b] else []), i) == OfBucket(bk, f, i) + (if i == n then b else [])
  {
    if b != [] {
      OfBucketSnoc(bk, f, b, i);
    } else {
      assert f + [] == f;
      assert OfBucket(bk, f, i) + [] == OfBucket(bk, f, i);
    }
  }

  lemma {:induction false} FlattenFlush<T>(chunks: seq<seq<T>>)
    ensures Flatten(Flush(chunks)) == Flatten(chunks)
  {
    if chunks != [] {
      var n := |chunks| - 1;
      FlattenFlush(chunks[..n]);
      assert chunks == chunks[..n] + [chunks[n]];
      FlattenSnoc(chunks[..n], chunks[n]);
      if chunks[n] != [] {
        FlattenSnoc(Flush(chunks[..n]), chunks[n]);
      } else {
        assert Flush(chunks) == Flush(chunks[..n]);
        assert Flatten(chunks[..n]) + chunks[n] == Flatten(chunks[..n]);
      }
    }
  }

  lemma OfBucketSnoc<T>(bk: Bucketing<T>, f: seq<seq<T>>, b: seq<T>, i: nat)
    ensures OfBucket(bk, f + [b], i) == OfBucket(bk, f, i) + (if BatchBucket(bk, b) == Some(i) then b else [])
  {
    assert (f + [b])[..|f|] == f;
  }

  lemma {:induction false} OfBucketAppend<T>(bk: Bucketing<T>, a: seq<seq<T>>, b: seq<seq<T>>, i: nat)
    ensures OfBucket(bk, a + b, i) == OfBucket(bk, a, i) + OfBucket(bk, b, i)
  {
    if b != [] {
      var n := |b| - 1;
      OfBucketAppend(bk, a, b[..n], i);
      assert (a + b)[..|a + b| - 1] == a + b[..n];
    } else {
      assert a + b == a;
    }
  }

  // ---------------------------------------------------------------------
  // What the stage's output is

  /** `out` is `m` full batches followed by partial batches in strictly
      increasing bucket order. */
  ghost predicate ShapedAt<T>(bk: Bucketing<T>, out: seq<seq<T>>, m: nat)
  {
    m <= |out|
    && (forall k :: 0 <= k < m ==> FullBatch(bk, out[k]))
    && (forall k :: m <= k < |out| ==> PartialBatch(bk, out[k]))
    && (forall k1, k2 :: m <= k1 < k2 < |out| ==>
          BucketOf(bk, out[k1][0]).value < BucketOf(bk, out[k2][0]).value)
  }

  /** The shape of the stage's output: first the batches emitted inside the
      loop, each of exactly `batch_sizes[i]` elements of one bucket `i`; then
      at most one partial batch per bucket, in bucket order. */
  lemma BucketedShape<T>(bk: Bucketing<T>, src: seq<T>)
    requires WellFormed(bk)
    ensures exists m :: ShapedAt(bk, Bucketed(bk, src), m)
  {
    var st := BucketRun(bk, src);
    RunWellFilled(bk, src);
    RunAllFull(bk, src);
    FlushShape(bk, st.buckets);
    ShapedAppend(bk, st.emitted, Flush(st.buckets));
    assert ShapedAt(bk, Bucketed(bk, src), |st.emitted|);
  }

  /** Full batches followed by a shaped flush are shaped at the seam. */
  lemma ShapedAppend<T>(bk: Bucketing<T>, e: seq<seq<T>>, f: seq<seq<T>>)
    requires forall k :: 0 <= k < |e| ==> FullBatch(bk, e[k])
    requires ShapedAt(bk, f, 0)
    ensures ShapedAt(bk, e + f, |e|)
  {
    var out, m := e + f, |e|;
    assert forall k :: 0 <= k < m ==> FullBatch(bk, out[k]) by {
      forall k | 0 <= k < m ensures FullBatch(bk, out[k]) {
        assert out[k] == e[k];
      }
    }
    SuffixShaped(bk, e, f);
  }

  lemma SuffixShaped<T>(bk: Bucketing<T>, e: seq<seq<T>>, f: seq<seq<T>>)
    requires ShapedAt(bk, f, 0)
    ensures var out := e + f;
      && (forall k :: |e| <= k < |out| ==> PartialBatch(bk, out[k]))
      && (forall k1, k2 :: |e| <= k1 < k2 < |out| ==>
            BucketOf(bk, out[k1][0]).value < BucketOf(bk, out[k2][0]).value)
  {
    var out, m := e + f, |e|;
    assert forall k :: m <= k < |out| ==> out[k] == f[k - m];
    forall k1, k2 | m <= k1 < k2 < |out|
      ensures BucketOf(bk, out[k1][0]).value < BucketOf(bk, out[k2][0]).value
    {
      assert out[k1] == f[k1 - m] && out[k2] == f[k2 - m];
    }
  }

  /** Within each bucket, source order is kept: the elements of bucket `i`,
      read across the output batches, are the source's bucket-`i` elements
      in source order. */
  lemma BucketedOrder<T>(bk: Bucketing<T>, src: seq<T>, i: nat)
    requires WellFormed(bk) && i < |bk.boundaries|
    ensures OfBucket(bk, Bucketed(bk, src), i) == InBucket(bk, src, i)
  {
    var st := BucketRun(bk, src);
    RunWellFilled(bk, src);
    RunInOrder(bk, src, i);
    OfBucketAppend(bk, st.emitted, Flush(st.buckets), i);
    FlushOfBucket(bk, st.buckets, i);
  }

  /** Nothing is lost or duplicated except what is dropped: the output holds
      exactly the elements that fit some bucket. */
  lemma BucketedTotal<T>(bk: Bucketing<T>, src: seq<T>)
    requires WellFormed(bk)
    ensures multiset(Flatten(Bucketed(bk, src))) == multiset(Kept(bk, src))
  {
    var st := BucketRun(bk, src);
    RunConserved(bk, src);
    FlattenAppend(st.emitted, Flush(st.buckets));
    FlattenFlush(st.buckets);
  }

  lemma {:induction false} NotInFlatten<T>(chunks: seq<seq<T>>, x: T)
    requires x !in Flatten(chunks)
    ensures forall k :: 0 <= k < |chunks| ==> x !in chunks[k]
  {
    if chunks != [] {
      NotInFlatten(chunks[1..], x);
      assert forall k :: 1 <= k < |chunks| ==> chunks[k] == chunks[1..][k - 1];
    }
  }

  /** An element longer than every boundary appears in no batch. */
  lemma BucketedDrops<T>(bk: Bucketing<T>, src: seq<T>, x: T)
    requires WellFormed(bk) && BucketOf(bk, x).None?
    ensures forall k :: 0 <= k < |Bucketed(bk, src)| ==> x !in Bucketed(bk, src)[k]
  {
    BucketedTotal(bk, src);
    assert x !in Kept(bk, src);
    assert multiset(Flatten(Bucketed(bk, src)))[x] == 0;
    NotInFlatten(Bucketed(bk, src), x);
  }

  /** The worked example: boundaries [5, 10], batch sizes [2, 2], and each
      element its own length. */
  function ExampleBucketing(): Bucketing<int>
  {
    Bucketing([5, 10], [2, 2], (x: int) => x)
  }

  /** After 3, 7, 4: bucket 0 has emitted [3, 4], bucket 1 holds [7]. */
  lemma ExampleFirstThree()
    ensures BucketRun(ExampleBucketing(), [3, 7, 4]) == BucketState([[], [7]], [[3, 4]])
  {
    var bk := ExampleBucketing();
    var src := [3, 7, 4];
    assert BucketOf(bk, 3) == Some(0);
    assert BucketOf(bk, 7) == Some(1);
    assert BucketOf(bk, 4) == Some(0);
    var s0 := BucketRun(bk, src[..0]);
    assert s0 == BucketState([[], []], []);
    assert src[..1][..0] == src[..0];
    var s1 := BucketRun(bk, src[..1]);
    assert s1 == BucketStep(bk, s0, 3);
    assert s0.buckets[0] + [3] == [3];
    assert s0.buckets[0 := [3]] == [[3], []];
    assert s1 == BucketState([[3], []], []);
    assert src[..2][..1] == src[..1];
    var s2 := BucketRun(bk, src[..2]);
    assert s2 == BucketStep(bk, s1, 7);
    assert s1.buckets[1] + [7] == [7];
    assert s1.buckets[1 := [7]] == [[3], [7]];
    assert s2 == BucketState([[3], [7]], []);
    assert src[..3][..2] == src[..2];
    assert src[..3] == src;
    assert BucketStep(bk, s2, 4) == BucketState([[], [7]], [[3, 4]]) by {
      assert s2.buckets[0] + [4] == [3, 4];
      assert s2.buckets[0 := []] == [[], [7]];
    }
  }

  /** Lengths 3, 7, 4, 12, 6: 12 is dropped, bucket 0 emits [3, 4] and then
      bucket 1 emits [7, 6]; nothing is left to flush. */
  lemma BucketedExample()
    ensures Bucketed(ExampleBucketing(), [3, 7, 4, 12, 6]) == [[3, 4], [7, 6]]
  {
    var bk := ExampleBucketing();
    var src := [3, 7, 4, 12, 6];
    ExampleFirstThree();
    assert src[..3] == [3, 7, 4];
    var s3 := BucketRun(bk, src[..3]);
    assert BucketOf(bk, 12) == None;
    assert BucketOf(bk, 6) == Some(1);
    assert src[..4][..3] == src[..3];
    var s4 := BucketRun(bk, src[..4]);
    assert s4 == BucketStep(bk, s3, 12) == s3;
    assert src[..5][..4] == src[..4];
    assert src[..5] == src;
    var s5 := BucketRun(bk, src);
    assert s5 == BucketStep(bk, s4, 6);
    assert s4.buckets[1] + [6] == [7, 6];
    assert s4.buckets[1 := []] == [[], []];
    assert s5 == BucketState([[], []], [[3, 4], [7, 6]]);
    assert Flush(s5.buckets) == [];
  }

  /** `BucketDataset.__iter__`, with `buckets` as a fixed-size array of
      lists. Python raises IndexError when `batch_sizes` is shorter than
      `boundaries` and an element reaches a bucket without a batch size;
      the model requires the lengths to fit. */
  method BucketStage<T, B>(source: seq<T>, boundaries: seq<int>, batchSizes: seq<int>,
                           lengthFn: T -> int, collateFn: seq<T> -> B) returns (out: seq<B>)
    requires |boundaries| <= |batchSizes|
    ensures out == Mapped(collateFn, Bucketed(Bucketing(boundaries, batchSizes, lengthFn), source))
  {
    var bk := Bucketing(boundaries, batchSizes, lengthFn);
    var buckets := new seq<T>[|boundaries|](_ => []);
    ghost var emitted: seq<seq<T>> := [];
    out := [];
    assert buckets[..] == BucketRun(bk, source[..0]).buckets;
    for k := 0 to |source|
      invariant buckets.Length == |boundaries|
      invariant buckets[..] == BucketRun(bk, source[..k]).buckets
      invariant emitted == BucketRun(bk, source[..k]).emitted
      invariant out == Mapped(collateFn, emitted)
    {
      assert source[..k + 1][..k] == source[..k];
      assert BucketRun(bk, source[..k + 1]) == BucketStep(bk, BucketRun(bk, source[..k]), source[k]);
      var full := PlaceSample(bk, buckets, source[k], emitted);
      if full.Some? {
        MappedAppend(collateFn, emitted, [full.value]);
        out := out + [collateFn(full.value)];
        emitted := emitted + [full.value];
      } else {
        assert emitted + [] == emitted;
      }
    }
    assert source[..|source|] == source;
    var flushed := FlushBuckets(buckets, collateFn);
    MappedAppend(collateFn, emitted, Flush(buckets[..]));
    out := out + flushed;
  }

  /** The inner loop on one sample: append it to the first bucket whose
      boundary admits its length, and hand back that bucket's contents
      (emptying it) when they reach the bucket's batch size. */
  method PlaceSample<T>(bk: Bucketing<T>, buckets: array<seq<T>>, x: T, ghost emitted: seq<seq<T>>)
    returns (full: Option<seq<T>>)
    requires WellFormed(bk) && buckets.Length == |bk.boundaries|
    modifies buckets
    ensures BucketState(buckets[..], emitted + (if full.Some? then [full.value] else []))
         == BucketStep(bk, BucketState(old(buckets[..]), emitted), x)
  {
    full := None;
    var length := bk.lengthFn(x);
    for i := 0 to buckets.Length
      invariant forall j :: 0 <= j < i ==> bk.boundaries[j] < length
      invariant buckets[..] == old(buckets[..])
    {
      if length <= bk.boundaries[i] {
        assert BucketOf(bk, x) == Some(i);
        var b := buckets[i] + [x];
        if |b| == bk.batchSizes[i] {
          full := Some(b);
          buckets[i] := [];
        } else {
          buckets[i] := b;
        }
        return;
      }
    }
    assert emitted + [] == emitted;
  }

  /** The loop after exhaustion: every non-empty bucket, in bucket order. */
  method FlushBuckets<T, B>(buckets: array<seq<T>>, collateFn: seq<T> -> B) returns (out: seq<B>)
    ensures out == Mapped(collateFn, Flush(buckets[..]))
  {
    out := [];
    for i := 0 to buckets.Length
      invariant out == Mapped(collateFn, Flush(buckets[..i]))
    {
      assert buckets[..i + 1][..i] == buckets[..i];
      if buckets[i] != [] {
        ghost var done := Flush(buckets[..i]);
        assert Flush(buckets[..i + 1]) == done + [buckets[i]];
        assert (done + [buckets[i]])[..|done|] == done;
        out := out + [collateFn(buckets[i])];
      } else {
        assert Flush(buckets[..i + 1]) == Flush(buckets[..i]);
      }
    }
    assert buckets[..buckets.Length] == buckets[..];
  }
}
