/** Batched insertion of index records: records are written in groups of
    `BatchSize`, and whatever is left at the end is written as one last,
    shorter group. */
module Batching {
  import opened Common

  /** Records per `executemany` transaction. */
  const BatchSize: nat := 5000

  /** Reference cut of `xs` into consecutive groups of `n`, the last one
      possibly shorter; no empty group. */
  function ChunksOf<T>(xs: seq<T>, n: nat): seq<seq<T>>
    requires n > 0
    decreases |xs|
  {
    if |xs| == 0 then []
    else
      var k := Min(n, |xs|);
      [xs[..k]] + ChunksOf(xs[k..], n)
  }

  /** The shape of a sequence of batches: none empty, none longer than `n`,
      and all but the last exactly `n` long. */
  predicate WellBatched<T>(bs: seq<seq<T>>, n: nat)
  {
    && (forall i :: 0 <= i < |bs| ==> 0 < |bs[i]| <= n)
    && (forall i :: 0 <= i < |bs| - 1 ==> |bs[i]| == n)
  }

  /** The batches written, laid end to end, are the records; and they have
      the batch shape. */
  lemma {:induction false} ChunksOfSound<T>(xs: seq<T>, n: nat)
    requires n > 0
    ensures Concat(ChunksOf(xs, n)) == xs
    ensures WellBatched(ChunksOf(xs, n), n)
    ensures |xs| == 0 <==> |ChunksOf(xs, n)| == 0
    decreases |xs|
  {
    if |xs| > 0 {
      var k := Min(n, |xs|);
      ChunksOfSound(xs[k..], n);
      assert xs == xs[..k] + xs[k..];
      var rest := ChunksOf(xs[k..], n);
      assert ChunksOf(xs, n) == [xs[..k]] + rest;
      assert ([xs[..k]] + rest)[1..] == rest;
      if |rest| > 0 {
        assert k == n;
      }
    }
  }

  /** Full batches followed by a short remainder are what `ChunksOf` yields:
      this is how the flushing loop's output is matched with the reference cut. */
  lemma {:induction false} ChunksOfFullBatches<T>(bs: seq<seq<T>>, tail: seq<T>, n: nat)
    requires n > 0
    requires forall i :: 0 <= i < |bs| ==> |bs[i]| == n
    requires |tail| <= n
    ensures ChunksOf(Concat(bs) + tail, n) == bs + (if |tail| > 0 then [tail] else [])
  {
    if |bs| == 0 {
      assert Concat(bs) + tail == tail;
      if |tail| > 0 {
        assert tail[..|tail|] == tail;
        assert tail[|tail|..] == [];
      }
    } else {
      var xs := Concat(bs) + tail;
      assert xs == bs[0] + (Concat(bs[1..]) + tail);
      assert xs[..n] == bs[0];
      assert xs[n..] == Concat(bs[1..]) + tail;
      ChunksOfFullBatches(bs[1..], tail, n);
      assert bs == [bs[0]] + bs[1..];
    }
  }
}
