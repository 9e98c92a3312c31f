/** The dataset stages of torchext/data.py.

    A Python stage is a generator over its source; here a source is a finite
    sequence and a stage is a method whose loop follows the generator's body,
    appending to `out` where the generator yields. Each method is proved
    against a specification function (or, for the shuffle, a relation), and
    the properties the stages promise are lemmas about those functions.
    `map_fn`, `filter_fn`, `length_fn` and `collate_fn` are arbitrary total
    functions. */
module Data {
  import opened Common
  import opened Strings

  // =====================================================================
  // MappedDataset

  /** `map_fn` applied to every element, same length, same order. */
  function Mapped<T, U>(f: T -> U, s: seq<T>): (r: seq<U>)
    ensures |r| == |s|
    ensures forall i :: 0 <= i < |s| ==> r[i] == f(s[i])
  {
    if s == [] then [] else Mapped(f, s[..|s| - 1]) + [f(s[|s| - 1])]
  }

  /** Mapping distributes over concatenation. */
  lemma MappedAppend<T, U>(f: T -> U, a: seq<T>, b: seq<T>)
    ensures Mapped(f, a + b) == Mapped(f, a) + Mapped(f, b)
  {
    assert forall i :: 0 <= i < |a + b| ==> (a + b)[i] == if i < |a| then a[i] else b[i - |a|];
  }

  method MapStage<T, U>(source: seq<T>, mapFn: T -> U) returns (out: seq<U>)
    ensures out == Mapped(mapFn, source)
  {
    out := [];
    for k := 0 to |source|
      invariant out == Mapped(mapFn, source[..k])
    {
      assert source[..k + 1][..k] == source[..k];
      out := out + [mapFn(source[k])];
    }
    assert source[..|source|] == source;
  }

  // =====================================================================
  // FilteredDataset

  /** The elements of `s` satisfying `p`. */
  function Filtered<T>(p: T -> bool, s: seq<T>): (r: seq<T>)
    ensures |r| <= |s|
    ensures forall i :: 0 <= i < |r| ==> p(r[i])
  {
    if s == [] then [] else Filtered(p, s[..|s| - 1]) + (if p(s[|s| - 1]) then [s[|s| - 1]] else [])
  }

  /** Exactly the passing elements: each occurs as often as in `s` when `p`
      holds of it and not at all otherwise. */
  lemma {:induction false} FilteredCount<T>(p: T -> bool, s: seq<T>)
    ensures forall x :: multiset(Filtered(p, s))[x] == if p(x) then multiset(s)[x] else 0
  {
    if s != [] {
      var init, last := s[..|s| - 1], s[|s| - 1];
      assert s == init + [last];
      FilteredCount(p, init);
    }
  }

  /** Filtering keeps the source order: it distributes over concatenation. */
  lemma {:induction false} FilteredAppend<T>(p: T -> bool, a: seq<T>, b: seq<T>)
    ensures Filtered(p, a + b) == Filtered(p, a) + Filtered(p, b)
  {
    if b == [] {
      assert a + b == a;
    } else {
      var init := b[..|b| - 1];
      assert (a + b)[..|a + b| - 1] == a + init;
      FilteredAppend(p, a, init);
    }
  }

  /** Filtering gives back the whole source exactly when every element passes. */
  lemma {:induction false} FilteredAll<T>(p: T -> bool, s: seq<T>)
    ensures Filtered(p, s) == s <==> forall i :: 0 <= i < |s| ==> p(s[i])
  {
    if s != [] {
      var init := s[..|s| - 1];
      FilteredAll(p, init);
      if !p(s[|s| - 1]) {
        assert |Filtered(p, s)| < |s|;
      } else if Filtered(p, s) == s {
        assert Filtered(p, init) == init;
      }
    }
  }

  /** Nothing passes exactly when no element satisfies `p`. */
  lemma {:induction false} FilteredEmpty<T>(p: T -> bool, s: seq<T>)
    ensures Filtered(p, s) == [] <==> forall i :: 0 <= i < |s| ==> !p(s[i])
  {
    if s != [] {
      var init, last := s[..|s| - 1], s[|s| - 1];
      FilteredEmpty(p, init);
      FilteredSnoc(p, init, last);
      assert init + [last] == s;
      if p(last) {
        assert Filtered(p, s) != [];
      } else {
        assert Filtered(p, s) == Filtered(p, init);
        assert (forall i :: 0 <= i < |s| ==> !p(s[i])) <==> (forall i :: 0 <= i < |init| ==> !p(init[i]));
      }
    }
  }

  lemma FilteredSnoc<T>(p: T -> bool, s: seq<T>, x: T)
    ensures Filtered(p, s + [x]) == Filtered(p, s) + (if p(x) then [x] else [])
  {
    assert (s + [x])[..|s|] == s;
  }

  /** Filtering twice is filtering once by both tests. */
  lemma {:induction false} FilteredTwice<T>(p: T -> bool, q: T -> bool, both: T -> bool, s: seq<T>)
    requires forall x :: both(x) == (p(x) && q(x))
    ensures Filtered(p, Filtered(q, s)) == Filtered(both, s)
  {
    if s != [] {
      var init, last := s[..|s| - 1], s[|s| - 1];
      FilteredTwice(p, q, both, init);
      assert Filtered(both, s) == Filtered(both, init) + (if both(last) then [last] else []);
      if q(last) {
        assert Filtered(q, s) == Filtered(q, init) + [last];
        FilteredSnoc(p, Filtered(q, init), last);
      } else {
        assert Filtered(q, s) == Filtered(q, init);
      }
    }
  }

  /** Filtering before or after a map gives the same elements when the two
      tests agree through the map. */
  lemma {:induction false} FilteredMapped<T, U>(f: T -> U, q: T -> bool, r: U -> bool, s: seq<T>)
    requires forall x :: q(x) == r(f(x))
    ensures Mapped(f, Filtered(q, s)) == Filtered(r, Mapped(f, s))
  {
    if s != [] {
      var init, last := s[..|s| - 1], s[|s| - 1];
      FilteredMapped(f, q, r, init);
      assert Mapped(f, s) == Mapped(f, init) + [f(last)];
      FilteredSnoc(r, Mapped(f, init), f(last));
      if q(last) {
        var kept := Filtered(q, init) + [last];
        assert kept[..|kept| - 1] == Filtered(q, init);
        assert Mapped(f, kept) == Mapped(f, Filtered(q, init)) + [f(last)];
      } else {
        assert Filtered(q, s) == Filtered(q, init);
      }
    }
  }

  method FilterStage<T>(source: seq<T>, filterFn: T -> bool) returns (out: seq<T>)
    ensures out == Filtered(filterFn, source)
  {
    out := [];
    for k := 0 to |source|
      invariant out == Filtered(filterFn, source[..k])
    {
      assert source[..k + 1][..k] == source[..k];
      if filterFn(source[k]) {
        out := out + [source[k]];
      }
    }
    assert source[..|source|] == source;
  }

  // =====================================================================
  // RepeatedDataset with a finite count

  /** The source `count` times over; nothing when `count <= 0`. */
  function Repeated<T>(s: seq<T>, count: int): (r: seq<T>)
    ensures |r| == if count <= 0 then 0 else count * |s|
    decreases count
  {
    if count <= 0 then [] else Repeated(s, count - 1) + s
  }

  lemma MulAround(q: int, n: int)
    ensures (q - 1) * n == q * n - n
    ensures (q + 1) * n == q * n + n
  {
  }

  /** Copy number `q` of the source sits at offset `q * |s|`. */
  lemma {:induction false} RepeatedAt<T>(s: seq<T>, count: int, q: nat, j: nat)
    requires q < count && j < |s|
    ensures q * |s| + j < |Repeated(s, count)|
    ensures Repeated(s, count)[q * |s| + j] == s[j]
    decreases count
  {
    if q < count - 1 {
      RepeatedAt(s, count - 1, q, j);
    } else {
      assert q * |s| == (count - 1) * |s|;
    }
  }

  /** Repeating `m` then `n` times is repeating `m + n` times. */
  lemma {:induction false} RepeatedAdd<T>(s: seq<T>, m: nat, n: nat)
    ensures Repeated(s, m + n) == Repeated(s, m) + Repeated(s, n)
    decreases n
  {
    if n == 0 {
      assert Repeated(s, m) + [] == Repeated(s, m);
    } else {
      RepeatedAdd(s, m, n - 1);
    }
  }

  method RepeatStage<T>(source: seq<T>, count: int) returns (out: seq<T>)
    ensures out == Repeated(source, count)
  {
    var c := 0;
    out := [];
    while c < count
      invariant 0 <= c && (c == 0 || c <= count)
      invariant out == Repeated(source, c)
      decreases count - c
    {
      for j := 0 to |source|
        invariant out == Repeated(source, c) + source[..j]
      {
        assert source[..j + 1] == source[..j] + [source[j]];
        out := out + [source[j]];
      }
      assert source[..|source|] == source;
      c := c + 1;
    }
  }

  // =====================================================================
  // ShuffledDataset

  /** `out` is what the shuffle stage may yield for `src`: each complete
      window of `size` consecutive inputs comes out in the same place as a
      permutation of itself, and what is left over at the end (fewer than
      `size` inputs, or everything when `size < 1`, since the buffer's length
      then never equals `size`) comes out unchanged. */
  ghost predicate ShuffledWindows<T>(src: seq<T>, size: int, out: seq<T>)
    decreases |src|
  {
    if 1 <= size <= |src| then
      size <= |out| && multiset(out[..size]) == multiset(src[..size])
      && ShuffledWindows(src[size..], size, out[size..])
    else
      out == src
  }

  /** `perms[w]` is a permutation of the full window `windows[w]`. */
  ghost predicate PermutedWindows<T>(windows: seq<seq<T>>, perms: seq<seq<T>>, size: int)
  {
    |windows| == |perms|
    && forall w :: 0 <= w < |windows| ==>
         |windows[w]| == size && multiset(perms[w]) == multiset(windows[w])
  }

  lemma PermutedWindowsSnoc<T>(windows: seq<seq<T>>, perms: seq<seq<T>>, size: int, window: seq<T>, perm: seq<T>)
    requires PermutedWindows(windows, perms, size)
    requires |window| == size && multiset(perm) == multiset(window)
    ensures PermutedWindows(windows + [window], perms + [perm], size)
    ensures Flatten(windows + [window]) == Flatten(windows) + window
    ensures Flatten(perms + [perm]) == Flatten(perms) + perm
  {
    FlattenSnoc(windows, window);
    FlattenSnoc(perms, perm);
    assert forall w :: 0 <= w < |windows| ==>
      (windows + [window])[w] == windows[w] && (perms + [perm])[w] == perms[w];
  }

  /** Windows of `size` and their permutations, followed by a short tail,
      satisfy the relation. */
  lemma {:induction false} ShuffledFromWindows<T>(windows: seq<seq<T>>, perms: seq<seq<T>>, tail: seq<T>, size: int)
    requires PermutedWindows(windows, perms, size)
    requires size >= 1 ==> |tail| < size
    requires size < 1 ==> windows == []
    ensures ShuffledWindows(Flatten(windows) + tail, size, Flatten(perms) + tail)
  {
    if windows != [] {
      var src := Flatten(windows) + tail;
      var out := Flatten(perms) + tail;
      assert |perms[0]| == size by {
        assert |multiset(perms[0])| == |multiset(windows[0])|;
      }
      assert src == windows[0] + (Flatten(windows[1..]) + tail);
      assert out == perms[0] + (Flatten(perms[1..]) + tail);
      assert src[..size] == windows[0] && src[size..] == Flatten(windows[1..]) + tail;
      assert out[..size] == perms[0] && out[size..] == Flatten(perms[1..]) + tail;
      assert PermutedWindows(windows[1..], perms[1..], size) by {
        assert forall w :: 0 <= w < |windows| - 1 ==>
          windows[1..][w] == windows[w + 1] && perms[1..][w] == perms[w + 1];
      }
      ShuffledFromWindows(windows[1..], perms[1..], tail, size);
    } else {
      assert Flatten(windows) + tail == tail;
    }
  }

  /** The shuffle stage yields a permutation of its input. */
  lemma {:induction false} ShuffledIsPermutation<T>(src: seq<T>, size: int, out: seq<T>)
    requires ShuffledWindows(src, size, out)
    ensures |out| == |src| && multiset(out) == multiset(src)
    decreases |src|
  {
    if 1 <= size <= |src| {
      ShuffledIsPermutation(src[size..], size, out[size..]);
      assert src == src[..size] + src[size..];
      assert out == out[..size] + out[size..];
      assert |out[..size]| == |src[..size]| by {
        assert |multiset(out[..size])| == |multiset(src[..size])|;
      }
    }
  }

  /** With a buffer of one the stage is the identity. */
  lemma {:induction false} ShuffleUnitBuffer<T>(src: seq<T>, out: seq<T>)
    requires ShuffledWindows(src, 1, out)
    ensures out == src
    decreases |src|
  {
    if 1 <= |src| {
      ShuffleUnitBuffer(src[1..], out[1..]);
      assert out[0] in multiset(src[..1]);
      assert src == src[..1] + src[1..];
      assert out == out[..1] + out[1..];
    }
  }

  /** Window number `q` comes out in place, as a permutation of itself. */
  lemma {:induction false} ShuffleWindowAt<T>(src: seq<T>, size: int, out: seq<T>, q: nat)
    requires ShuffledWindows(src, size, out)
    requires size >= 1 && (q + 1) * size <= |src|
    ensures |out| == |src|
    ensures multiset(out[q * size..(q + 1) * size]) == multiset(src[q * size..(q + 1) * size])
    decreases q
  {
    ShuffledIsPermutation(src, size, out);
    MulAround(q, size);
    if q > 0 {
      MulAround(q - 1, size);
      var a := (q - 1) * size;
      ShuffleWindowAt(src[size..], size, out[size..], q - 1);
      assert src[size..][a..a + size] == src[a + size..a + 2 * size];
      assert out[size..][a..a + size] == out[a + size..a + 2 * size];
    }
  }

  /** The trailing partial window (after `q` full ones) comes out unchanged. */
  lemma ShuffleTail<T>(src: seq<T>, size: int, out: seq<T>, q: nat)
    requires ShuffledWindows(src, size, out)
    requires size >= 1 && q * size <= |src| < (q + 1) * size
    ensures |out| == |src| && out[q * size..] == src[q * size..]
  {
    MulAround(q, size);
    WholeWindows(q, size);
    ShuffleTailAt(src, size, out, q * size);
  }

  /** `n` is a whole number of windows of `size`. */
  ghost predicate WholeWindowsAt(n: int, size: int)
    requires size >= 1
    decreases if n < 0 then 0 else n
  {
    n == 0 || (n >= size && WholeWindowsAt(n - size, size))
  }

  lemma {:induction false} WholeWindows(q: nat, size: int)
    requires size >= 1
    ensures WholeWindowsAt(q * size, size)
  {
    if q > 0 {
      MulAround(q, size);
      MulMonotonic(1, q, size);
      WholeWindows(q - 1, size);
    }
  }

  /** `ShuffleTail` with the offset of the tail, a whole number of windows. */
  lemma {:induction false} ShuffleTailAt<T>(src: seq<T>, size: int, out: seq<T>, qs: nat)
    requires ShuffledWindows(src, size, out)
    requires size >= 1 && WholeWindowsAt(qs, size) && qs <= |src| < qs + size
    ensures |out| == |src| && out[qs..] == src[qs..]
    decreases qs
  {
    ShuffledIsPermutation(src, size, out);
    if qs == 0 {
      assert out == src;
    } else {
      var a := qs - size;
      ShuffleTailAt(src[size..], size, out[size..], a);
      assert src[size..][a..] == src[qs..];
      assert out[size..][a..] == out[qs..];
    }
  }

  /** `random.shuffle`: an arbitrary permutation, not a distribution. */
  method Shuffle<T(==)>(window: seq<T>) returns (perm: seq<T>)
    ensures multiset(perm) == multiset(window)
  {
    perm :| multiset(perm) == multiset(window);
  }

  method ShuffleStage<T(==)>(source: seq<T>, bufferSize: int) returns (out: seq<T>)
    ensures ShuffledWindows(source, bufferSize, out)
  {
    var buf: seq<T> := [];
    out := [];
    ghost var windows: seq<seq<T>> := [];
    ghost var perms: seq<seq<T>> := [];
    for k := 0 to |source|
      invariant Flatten(windows) + buf == source[..k]
      invariant Flatten(perms) == out
      invariant PermutedWindows(windows, perms, bufferSize)
      invariant bufferSize >= 1 ==> |buf| < bufferSize
      invariant bufferSize < 1 ==> windows == []
    {
      assert source[..k + 1] == source[..k] + [source[k]];
      buf := buf + [source[k]];
      if |buf| == bufferSize {
        var window := buf;
        buf := Shuffle(window);
        out := out + buf;
        PermutedWindowsSnoc(windows, perms, bufferSize, window, buf);
        windows, perms := windows + [window], perms + [buf];
        buf := [];
      }
    }
    assert source[..|source|] == source;
    ShuffledFromWindows(windows, perms, buf, bufferSize);
    if buf != [] {
      out := out + buf;
    } else {
      assert out + buf == out;
    }
  }

  // =====================================================================
  // BatchedDataset (before `collate_fn`)

  /** The batches the stage collates: consecutive slices of `size`, the last
      one possibly shorter; a single batch of everything when `size < 1`. */
  function Batches<T>(s: seq<T>, size: int): (r: seq<seq<T>>)
    ensures r == [] <==> s == []
    ensures forall i :: 0 <= i < |r| ==> r[i] != [] && (size >= 1 ==> |r[i]| <= size)
    ensures size >= 1 ==> forall i :: 0 <= i < |r| - 1 ==> |r[i]| == size
    ensures size < 1 && s != [] ==> r == [s]
    decreases |s|
  {
    if s == [] then []
    else if 1 <= size <= |s| then [s[..size]] + Batches(s[size..], size)
    else [s]
  }

  /** Reading the batches back element by element gives the input. */
  lemma {:induction false} FlattenBatches<T>(s: seq<T>, size: int)
    ensures Flatten(Batches(s, size)) == s
    decreases |s|
  {
    if s != [] && 1 <= size <= |s| {
      FlattenBatches(s[size..], size);
      assert s == s[..size] + s[size..];
    } else if s != [] {
      assert Flatten([s]) == s + Flatten([]);
    }
  }

  /** With `size >= 1` there are `ceil(|s| / size)` batches. */
  lemma {:induction false} BatchCount<T>(s: seq<T>, size: int)
    requires size >= 1
    ensures |Batches(s, size)| == (|s| + size - 1) / size
    decreases |s|
  {
    if size <= |s| {
      BatchCount(s[size..], size);
      DivAddDivisor(|s| - 1, size);
    } else if s != [] {
      DivAddDivisor(|s| - 1, size);
      assert (|s| - 1) / size == 0;
    }
  }

  lemma DivAddDivisor(x: int, n: int)
    requires n >= 1 && x + n >= 0
    ensures (x + n) / n == (x / n) + 1
  {
    var q, r := x / n, x % n;
    var q2, r2 := (x + n) / n, (x + n) % n;
    assert x == q * n + r && 0 <= r < n;
    assert x + n == q2 * n + r2 && 0 <= r2 < n;
    MulAround(q + 1, n);
    MulAround(q, n);
    if q2 > q + 1 {
      MulMonotonic(q + 2, q2, n);
      MulAround(q + 2, n);
      assert false;
    } else if q2 < q + 1 {
      MulMonotonic(q2, q, n);
      assert false;
    }
  }

  lemma MulMonotonic(a: int, b: int, n: int)
    requires a <= b && n >= 1
    ensures a * n <= b * n
  {
  }

  /** Every chunk holds `size` elements. */
  ghost predicate FullChunks<T>(chunks: seq<seq<T>>, size: int)
  {
    forall c :: 0 <= c < |chunks| ==> |chunks[c]| == size
  }

  /** Full chunks followed by a short tail batch exactly into those chunks
      and the tail. */
  lemma {:induction false} BatchesFromChunks<T>(chunks: seq<seq<T>>, tail: seq<T>, size: int)
    requires FullChunks(chunks, size)
    requires size >= 1 ==> |tail| < size
    requires size < 1 ==> chunks == []
    ensures Batches(Flatten(chunks) + tail, size) == chunks + (if tail == [] then [] else [tail])
  {
    if chunks == [] {
      assert Flatten(chunks) + tail == tail;
    } else {
      var s := Flatten(chunks) + tail;
      assert s == chunks[0] + (Flatten(chunks[1..]) + tail);
      assert s[..size] == chunks[0] && s[size..] == Flatten(chunks[1..]) + tail;
      BatchesFromChunks(chunks[1..], tail, size);
      assert chunks == [chunks[0]] + chunks[1..];
    }
  }

  /** The scenario of 10 elements in batches of 4: sizes 4, 4, 2. */
  lemma BatchSizesForTen<T>(s: seq<T>)
    requires |s| == 10
    ensures |Batches(s, 4)| == 3
    ensures |Batches(s, 4)[0]| == 4 && |Batches(s, 4)[1]| == 4 && |Batches(s, 4)[2]| == 2
  {
    assert Batches(s, 4) == [s[..4]] + Batches(s[4..], 4);
    assert Batches(s[4..], 4) == [s[4..][..4]] + Batches(s[4..][4..], 4);
    assert Batches(s[4..][4..], 4) == [s[4..][4..]];
  }

  /** Closing a full batch: it joins the chunks, and its collated form
      joins the output. */
  lemma CloseChunk<T, B>(chunks: seq<seq<T>>, batch: seq<T>, collateFn: seq<T> -> B, size: int)
    requires FullChunks(chunks, size) && |batch| == size
    ensures FullChunks(chunks + [batch], size)
    ensures Flatten(chunks + [batch]) + [] == Flatten(chunks) + batch
    ensures Mapped(collateFn, chunks + [batch]) == Mapped(collateFn, chunks) + [collateFn(batch)]
  {
    FlattenSnoc(chunks, batch);
    assert (chunks + [batch])[..|chunks|] == chunks;
    assert forall c :: 0 <= c < |chunks| ==> (chunks + [batch])[c] == chunks[c];
  }

  /** One more source element joins the open batch. */
  lemma GrowBatch<T>(flat: seq<T>, batch: seq<T>, source: seq<T>, k: nat)
    requires k < |source| && flat + batch == source[..k]
    ensures flat + (batch + [source[k]]) == source[..k + 1]
  {
    assert source[..k + 1] == source[..k] + [source[k]];
  }

  method BatchStage<T, B>(source: seq<T>, batchSize: int, collateFn: seq<T> -> B) returns (out: seq<B>)
    ensures out == Mapped(collateFn, Batches(source, batchSize))
  {
    var batch: seq<T> := [];
    out := [];
    ghost var chunks: seq<seq<T>> := [];
    for k := 0 to |source|
      invariant Flatten(chunks) + batch == source[..k]
      invariant out == Mapped(collateFn, chunks)
      invariant FullChunks(chunks, batchSize)
      invariant batchSize >= 1 ==> |batch| < batchSize
      invariant batchSize < 1 ==> chunks == []
    {
      GrowBatch(Flatten(chunks), batch, source, k);
      batch := batch + [source[k]];
      if |batch| == batchSize {
        out := out + [collateFn(batch)];
        CloseChunk(chunks, batch, collateFn, batchSize);
        chunks := chunks + [batch];
        batch := [];
      }
    }
    assert source[..|source|] == source;
    FlushBatch(chunks, batch, batchSize, collateFn);
    if batch != [] {
      out := out + [collateFn(batch)];
    }
  }

  /** After the loop: the open batch, when not empty, is the last one. */
  lemma FlushBatch<T, B>(chunks: seq<seq<T>>, batch: seq<T>, size: int, collateFn: seq<T> -> B)
    requires FullChunks(chunks, size)
    requires size >= 1 ==> |batch| < size
    requires size < 1 ==> chunks == []
    ensures Mapped(collateFn, Batches(Flatten(chunks) + batch, size)) ==
      Mapped(collateFn, chunks) + (if batch == [] then [] else [collateFn(batch)])
  {
    BatchesFromChunks(chunks, batch, size);
    if batch != [] {
      assert (chunks + [batch])[..|chunks|] == chunks;
    } else {
      assert chunks + [] == chunks;
    }
  }

  // =====================================================================
  // TextLineDataset: the `\r?\n$` substitution on each line

  /** Drops one trailing "\r\n" or "\n". */
  function DropLineEnd(s: string): (r: string)
    ensures |r| <= |s| && r == s[..|r|]
    ensures s[|r|..] == if EndsWith(s, "\r\n") then "\r\n" else if EndsWith(s, "\n") then "\n" else ""
  {
    if EndsWith(s, "\r\n") then
      var r := s[..|s| - 2];
      assert s[|r|..] == s[|s| - 2..];
      r
    else if EndsWith(s, "\n") then
      var r := s[..|s| - 1];
      assert s[|r|..] == s[|s| - 1..];
      r
    else
      assert s[|s|..] == "";
      s
  }

  /** `re.sub(r'\r?\n$', '', line)`. Without MULTILINE, `$` matches at the end
      and just before a final "\n", so a line ending in two newlines loses
      both (with a "\r" before the first); otherwise one "\r\n" or "\n" goes. */
  function StripNewline(line: string): (r: string)
    ensures |r| <= |line| && r == line[..|r|]
    ensures !EndsWith(line, "\n") <==> r == line
    ensures line[|r|..] in {"", "\n", "\r\n", "\n\n", "\r\n\n"}
    ensures EndsWith(line, "\r\n\n") ==> line[|r|..] == "\r\n\n"
    ensures EndsWith(line, "\n\n") && !EndsWith(line, "\r\n\n") ==> line[|r|..] == "\n\n"
    ensures !EndsWith(line, "\n\n") && EndsWith(line, "\r\n") ==> line[|r|..] == "\r\n"
    ensures !EndsWith(line, "\n\n") && !EndsWith(line, "\r\n") && EndsWith(line, "\n") ==> line[|r|..] == "\n"
  {
    if EndsWith(line, "\n\n") then
      var t := line[..|line| - 1];
      var r := DropLineEnd(t);
      assert t[|t| - 1..] == line[|line| - 2..][..1];
      assert line[|r|..] == t[|r|..] + "\n";
      assert t[|r|..] == "\n" || t[|r|..] == "\r\n";
      assert line[|r|..] == "\n\n" || line[|r|..] == "\r\n\n";
      assert r != line;
      r
    else DropLineEnd(line)
  }

  /** A line as iterating over a text file yields it: no "\n" except the last
      character. */
  predicate IsLine(s: string)
  {
    forall i :: 0 <= i < |s| - 1 ==> s[i] != '\n'
  }

  /** On such a line the substitution removes exactly the terminator: a
      trailing "\r\n", else a trailing "\n", else nothing; what is left has no
      "\n", and stripping again changes nothing. */
  lemma StripLine(line: string)
    requires IsLine(line)
    ensures var r := StripNewline(line);
      && '\n' !in r
      && (EndsWith(line, "\r\n") ==> r + "\r\n" == line)
      && (EndsWith(line, "\n") && !EndsWith(line, "\r\n") ==> r + "\n" == line)
      && (!EndsWith(line, "\n") ==> r == line)
      && StripNewline(r) == r
  {
    LineIsNotDoubleEnded(line);
    var r := StripNewline(line);
    LineBodyHasNoNewline(line);
    if EndsWith(line, "\r\n") {
      assert r + "\r\n" == line;
    } else if EndsWith(line, "\n") {
      assert r + "\n" == line;
    }
  }

  lemma LineIsNotDoubleEnded(line: string)
    requires IsLine(line)
    ensures StripNewline(line) == DropLineEnd(line)
  {
    if |line| >= 2 {
      assert line[|line| - 2] != '\n';
      assert line[|line| - 2..] != "\n\n" by {
        assert line[|line| - 2..][0] == line[|line| - 2];
      }
    }
    assert !EndsWith(line, "\n\n");
  }

  lemma LineBodyHasNoNewline(line: string)
    requires IsLine(line)
    ensures '\n' !in DropLineEnd(line) && !EndsWith(DropLineEnd(line), "\n")
  {
    var r := DropLineEnd(line);
    assert '\n' !in r by {
      forall i | 0 <= i < |r| ensures r[i] != '\n' {
        assert r[i] == line[i];
      }
    }
    if r != [] {
      assert r[|r| - 1] != '\n';
      assert r[|r| - 1..][0] == r[|r| - 1];
    }
  }
}
