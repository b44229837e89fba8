/**
 The buffer behind the bulk `insert` path when its batch size is not 1. Each pair is
 appended to the buffer and `flush()` is tried; `flush` writes the buffer out when it
 is non-empty and either forced, or the batch size is falsy, or the buffer has reached
 the batch size. After the input is exhausted one forced flush writes what is left.
 Python treats 0 and None as a falsy batch size; the model writes both as 0. A
 negative batch size is truthy and every length reaches it, so it too flushes on
 every pair.
 */
module Batching {

  /** The pending buffer and the batches written so far, in the order they were written. */
  datatype Buffer<T> = Buffer(pending: seq<T>, flushed: seq<seq<T>>)

  /** The guard of the inner `flush(force)`. */
  predicate ShouldFlush<T>(pending: seq<T>, size: int, force: bool)
  {
    |pending| > 0 && (force || size == 0 || |pending| >= size)
  }

  /** One call of `flush(force)`: write the whole buffer as one batch and clear it, or do nothing. */
  function Flush<T>(b: Buffer<T>, size: int, force: bool): Buffer<T>
  {
    if ShouldFlush(b.pending, size, force) then Buffer([], b.flushed + [b.pending]) else b
  }

  /** One iteration of the input loop: append the pair, then try an unforced flush. */
  function Step<T>(b: Buffer<T>, x: T, size: int): Buffer<T>
  {
    Flush(Buffer(b.pending + [x], b.flushed), size, false)
  }

  /** The input loop, as a left fold of `Step` over the input. */
  function Feed<T>(b: Buffer<T>, xs: seq<T>, size: int): Buffer<T>
    decreases |xs|
  {
    if |xs| == 0 then b else Feed(Step(b, xs[0], size), xs[1..], size)
  }

  /** The empty buffer `insert` starts from. */
  function Start<T>(): Buffer<T>
  {
    Buffer([], [])
  }

  /** Every batch the whole `insert` writes: the input loop followed by the forced flush. */
  function Batches<T>(xs: seq<T>, size: int): seq<seq<T>>
  {
    Flush(Feed(Start(), xs, size), size, true).flushed
  }

  /** The batches laid end to end. */
  function Concat<T>(bs: seq<seq<T>>): (r: seq<T>)
    ensures |bs| == 0 ==> r == []
  {
    if |bs| == 0 then [] else Concat(bs[..|bs| - 1]) + bs[|bs| - 1]
  }

  lemma ConcatSnoc<T>(bs: seq<seq<T>>, b: seq<T>)
    ensures Concat(bs + [b]) == Concat(bs) + b
  {
    assert (bs + [b])[..|bs|] == bs;
  }

  lemma {:induction false} ConcatAppend<T>(bs: seq<seq<T>>, cs: seq<seq<T>>)
    ensures Concat(bs + cs) == Concat(bs) + Concat(cs)
    decreases |cs|
  {
    if |cs| > 0 {
      var init := cs[..|cs| - 1];
      var last := cs[|cs| - 1];
      assert cs == init + [last];
      assert bs + cs == (bs + init) + [last];
      ConcatSnoc(bs + init, last);
      ConcatSnoc(init, last);
      ConcatAppend(bs, init);
    } else {
      assert bs + cs == bs;
    }
  }

  /** Nothing is lost, duplicated or reordered by one step: the written batches followed by the buffer grow by the pair. */
  lemma StepKeepsOrder<T>(b: Buffer<T>, x: T, size: int)
    ensures Concat(Step(b, x, size).flushed) + Step(b, x, size).pending == Concat(b.flushed) + b.pending + [x]
  {
    if ShouldFlush(b.pending + [x], size, false) {
      ConcatSnoc(b.flushed, b.pending + [x]);
    }
  }

  /** The same for the whole input loop. */
  lemma {:induction false} FeedKeepsOrder<T>(b: Buffer<T>, xs: seq<T>, size: int)
    ensures Concat(Feed(b, xs, size).flushed) + Feed(b, xs, size).pending == Concat(b.flushed) + b.pending + xs
    decreases |xs|
  {
    if |xs| > 0 {
      StepKeepsOrder(b, xs[0], size);
      FeedKeepsOrder(Step(b, xs[0], size), xs[1..], size);
      assert [xs[0]] + xs[1..] == xs;
    }
  }

  /** The loop only ever appends batches: earlier ones stay as they were written. */
  lemma {:induction false} FeedExtends<T>(b: Buffer<T>, xs: seq<T>, size: int)
    ensures |b.flushed| <= |Feed(b, xs, size).flushed|
    ensures Feed(b, xs, size).flushed[..|b.flushed|] == b.flushed
    decreases |xs|
  {
    if |xs| > 0 {
      FeedExtends(Step(b, xs[0], size), xs[1..], size);
    }
  }

  /** Feeding one more pair is one more step of the loop. */
  lemma {:induction false} FeedSnoc<T>(b: Buffer<T>, xs: seq<T>, x: T, size: int)
    ensures Feed(b, xs + [x], size) == Step(Feed(b, xs, size), x, size)
    decreases |xs|
  {
    if |xs| > 0 {
      assert (xs + [x])[1..] == xs[1..] + [x];
      FeedSnoc(Step(b, xs[0], size), xs[1..], x, size);
    }
  }

  /**
   The written batches, laid end to end, are exactly the input in its order (so each pair
   is written exactly once), and the buffer is empty when `insert` returns.
   */
  lemma BatchesCoverInput<T>(xs: seq<T>, size: int)
    ensures Concat(Batches(xs, size)) == xs
    ensures Flush(Feed(Start(), xs, size), size, true).pending == []
  {
    var fed := Feed(Start(), xs, size);
    FeedKeepsOrder(Start(), xs, size);
    if ShouldFlush(fed.pending, size, true) {
      ConcatSnoc(fed.flushed, fed.pending);
    } else {
      assert fed.pending == [];
      assert Concat(fed.flushed) + fed.pending == Concat(fed.flushed);
    }
  }

  /** No batch is empty: `flush` never writes an empty buffer. */
  lemma {:induction false} FeedBatchesNonEmpty<T>(b: Buffer<T>, xs: seq<T>, size: int)
    requires forall i :: 0 <= i < |b.flushed| ==> |b.flushed[i]| > 0
    ensures forall i :: 0 <= i < |Feed(b, xs, size).flushed| ==> |Feed(b, xs, size).flushed[i]| > 0
    decreases |xs|
  {
    if |xs| > 0 {
      FeedBatchesNonEmpty(Step(b, xs[0], size), xs[1..], size);
    }
  }

  /** No batch of a whole `insert` is empty. */
  lemma BatchesNonEmpty<T>(xs: seq<T>, size: int)
    ensures forall i :: 0 <= i < |Batches(xs, size)| ==> |Batches(xs, size)[i]| > 0
  {
    FeedBatchesNonEmpty(Start(), xs, size);
  }

  /** A buffer whose batches all hold exactly `size` pairs and whose pending part is shorter. */
  ghost predicate Full<T>(b: Buffer<T>, size: int)
  {
    && |b.pending| < size
    && forall i :: 0 <= i < |b.flushed| ==> |b.flushed[i]| == size
  }

  /**
   With a batch size of at least 1, appending brings the buffer to at most `size`, and a
   mid-stream flush fires exactly when it reaches `size`, so it writes exactly `size` pairs.
   */
  lemma StepBounded<T>(b: Buffer<T>, x: T, size: int)
    requires size >= 1 && Full(b, size)
    ensures |b.pending + [x]| <= size
    ensures Full(Step(b, x, size), size)
    ensures |Step(b, x, size).flushed| == |b.flushed| + (if |b.pending| + 1 == size then 1 else 0)
  {
  }

  /** Over the whole loop the buffer stays below `size` and every batch written holds `size` pairs. */
  lemma {:induction false} FeedBounded<T>(b: Buffer<T>, xs: seq<T>, size: int)
    requires size >= 1 && Full(b, size)
    ensures Full(Feed(b, xs, size), size)
    decreases |xs|
  {
    if |xs| > 0 {
      StepBounded(b, xs[0], size);
      FeedBounded(Step(b, xs[0], size), xs[1..], size);
    }
  }

  /**
   The shape of a batched `insert` with a batch size of at least 1: the loop writes some
   number `q` of batches of exactly `size` pairs and leaves `r < size` pairs pending, with
   `q * size + r` the input length; the forced flush writes those `r` remaining pairs as
   the last batch, and is skipped when none remain.
   */
  lemma BatchesShape<T>(xs: seq<T>, size: int)
    requires size >= 1
    ensures |Feed(Start(), xs, size).flushed| * size + |Feed(Start(), xs, size).pending| == |xs|
    ensures |Feed(Start(), xs, size).pending| < size
    ensures forall i :: 0 <= i < |Feed(Start(), xs, size).flushed| ==> |Batches(xs, size)[i]| == size
    ensures Feed(Start(), xs, size).pending == [] ==> Batches(xs, size) == Feed(Start(), xs, size).flushed
    ensures Feed(Start(), xs, size).pending != [] ==>
      Batches(xs, size) == Feed(Start(), xs, size).flushed + [Feed(Start(), xs, size).pending]
  {
    var fed := Feed(Start<T>(), xs, size);
    FeedBounded(Start<T>(), xs, size);
    FeedKeepsOrder(Start<T>(), xs, size);
    assert Concat(fed.flushed) + fed.pending == xs;
    ConcatOfFull(fed.flushed, size);
  }

  lemma {:induction false} ConcatOfFull<T>(bs: seq<seq<T>>, size: int)
    requires forall i :: 0 <= i < |bs| ==> |bs[i]| == size
    ensures |Concat(bs)| == |bs| * size
    decreases |bs|
  {
    if |bs| > 0 {
      ConcatOfFull(bs[..|bs| - 1], size);
    }
  }

  /** With a falsy (or negative) batch size every pair is flushed on its own, in input order. */
  lemma FalsySizeFlushesEachPair<T>(xs: seq<T>, size: int)
    requires size <= 0
    ensures |Batches(xs, size)| == |xs|
    ensures forall i :: 0 <= i < |xs| ==> Batches(xs, size)[i] == [xs[i]]
  {
    FeedSingletons(Start(), xs, size);
  }

  lemma {:induction false} FeedSingletons<T>(b: Buffer<T>, xs: seq<T>, size: int)
    requires size <= 0 && |b.pending| == 0
    ensures Feed(b, xs, size).pending == []
    ensures Feed(b, xs, size).flushed == b.flushed + seq(|xs|, i requires 0 <= i < |xs| => [xs[i]])
    decreases |xs|
  {
    if |xs| > 0 {
      var next := Step(b, xs[0], size);
      assert b.pending + [xs[0]] == [xs[0]];
      assert next.flushed == b.flushed + [[xs[0]]];
      FeedSingletons(next, xs[1..], size);
      assert b.flushed + seq(|xs|, i requires 0 <= i < |xs| => [xs[i]])
          == next.flushed + seq(|xs| - 1, i requires 0 <= i < |xs| - 1 => [xs[1..][i]]);
    }
  }
}
