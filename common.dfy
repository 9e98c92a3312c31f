/** Small shared vocabulary: an optional value and the concatenation of a
    sequence of sequences (what a consumer sees when it reads batches back
    element by element). */
module Common {

  datatype Option<T> = None | Some(value: T)

  /** The elements of all the chunks, in order. */
  function Flatten<T>(chunks: seq<seq<T>>): (r: seq<T>)
  {
    if chunks == [] then [] else chunks[0] + Flatten(chunks[1..])
  }

  /** Appending a chunk at the end appends its elements at the end. */
  lemma {:induction false} FlattenSnoc<T>(chunks: seq<seq<T>>, c: seq<T>)
    ensures Flatten(chunks + [c]) == Flatten(chunks) + c
  {
    if chunks == [] {
      assert [] + [c] == [c];
    } else {
      assert (chunks + [c])[1..] == chunks[1..] + [c];
      FlattenSnoc(chunks[1..], c);
    }
  }

  /** Flattening distributes over concatenation of chunk lists. */
  lemma {:induction false} FlattenAppend<T>(a: seq<seq<T>>, b: seq<seq<T>>)
    ensures Flatten(a + b) == Flatten(a) + Flatten(b)
  {
    if a == [] {
      assert [] + b == b;
    } else {
      assert (a + b)[1..] == a[1..] + b;
      FlattenAppend(a[1..], b);
    }
  }

  /** The length of a flattening is the sum of the chunk lengths; in
      particular it is `n * |chunks|` when every chunk has length `n`. */
  lemma {:induction false} FlattenUniformLength<T>(chunks: seq<seq<T>>, n: nat)
    requires forall i :: 0 <= i < |chunks| ==> |chunks[i]| == n
    ensures |Flatten(chunks)| == n * |chunks|
  {
    if chunks != [] {
      FlattenUniformLength(chunks[1..], n);
    }
  }

  /** The multiset of a flattening, after one chunk is replaced. */
  lemma {:induction false} FlattenUpdateMultiset<T>(chunks: seq<seq<T>>, i: nat, c: seq<T>)
    requires i < |chunks|
    ensures multiset(Flatten(chunks[i := c])) + multiset(chunks[i])
         == multiset(Flatten(chunks)) + multiset(c)
  {
    if i == 0 {
      assert chunks[i := c][1..] == chunks[1..];
      assert Flatten(chunks[i := c]) == c + Flatten(chunks[1..]);
    } else {
      var d := chunks[i := c];
      assert d[1..] == chunks[1..][i - 1 := c];
      assert Flatten(d) == chunks[0] + Flatten(d[1..]);
      assert Flatten(chunks) == chunks[0] + Flatten(chunks[1..]);
      assert chunks[1..][i - 1] == chunks[i];
      FlattenUpdateMultiset(chunks[1..], i - 1, c);
      assert multiset(Flatten(d)) == multiset(chunks[0]) + multiset(Flatten(d[1..]));
      assert multiset(Flatten(chunks)) == multiset(chunks[0]) + multiset(Flatten(chunks[1..]));
      calc {
        multiset(Flatten(d)) + multiset(chunks[i]);
        multiset(chunks[0]) + (multiset(Flatten(d[1..])) + multiset(chunks[i]));
        multiset(chunks[0]) + (multiset(Flatten(chunks[1..])) + multiset(c));
        multiset(Flatten(chunks)) + multiset(c);
      }
    }
  }
}
