/** The batched persistence shared by both reanalysis loops: queued updates
    are collected, written as soon as 50 are pending, and whatever remains is
    written once the loop ends. */
module Batching {

  const BatchSize: nat := 50

  /** The batches the loops write for the queue `q`, in order. */
  function Batches<T>(q: seq<T>): (bs: seq<seq<T>>)
    ensures forall k :: 0 <= k < |bs| ==> 0 < |bs[k]| <= BatchSize
    ensures forall k :: 0 <= k < |bs| - 1 ==> |bs[k]| == BatchSize
    ensures |bs| == (|q| + BatchSize - 1) / BatchSize
    decreases |q|
  {
    if |q| == 0 then []
    else if |q| <= BatchSize then [q]
    else [q[..BatchSize]] + Batches(q[BatchSize..])
  }

  /** The batches laid end to end. */
  function Concat<T>(bs: seq<seq<T>>): seq<T> {
    if |bs| == 0 then [] else bs[0] + Concat(bs[1..])
  }

  /** Nothing is lost, duplicated or reordered: the batches concatenate back to the queue. */
  lemma {:induction false} ConcatBatches<T>(q: seq<T>)
    ensures Concat(Batches(q)) == q
    decreases |q|
  {
    if |q| > BatchSize {
      ConcatBatches(q[BatchSize..]);
      assert q == q[..BatchSize] + q[BatchSize..];
    }
  }

  lemma {:induction false} ConcatAppend<T>(a: seq<seq<T>>, b: seq<seq<T>>)
    ensures Concat(a + b) == Concat(a) + Concat(b)
  {
    if |a| > 0 {
      ConcatAppend(a[1..], b);
      assert (a + b)[1..] == a[1..] + b;
    } else {
      assert a + b == b;
    }
  }

  /** A queue whose length is a multiple of the batch size can be split there. */
  lemma {:induction false} BatchesAppend<T>(a: seq<T>, b: seq<T>)
    requires |a| % BatchSize == 0
    ensures Batches(a + b) == Batches(a) + Batches(b)
    decreases |a|
  {
    if |a| > 0 {
      assert (a + b)[..BatchSize] == a[..BatchSize];
      assert (a + b)[BatchSize..] == a[BatchSize..] + b;
      BatchesAppend(a[BatchSize..], b);
      if |a| == BatchSize {
        assert a[..BatchSize] == a && a[BatchSize..] == [];
        if |b| == 0 {
          assert a + b == a;
        }
      }
    } else {
      assert a + b == b;
    }
  }

  /** The state of the loop after it has seen the queue `q`: the full batches
      already written and the items still pending. */
  ghost predicate Pending<T>(q: seq<T>, flushes: seq<seq<T>>, pending: seq<T>) {
    && BatchSize * |flushes| + |pending| == |q|
    && |pending| < BatchSize
    && flushes == Batches(q[..BatchSize * |flushes|])
    && pending == q[BatchSize * |flushes|..]
  }

  /** Appending `x` to the pending items, and flushing them when they reach 50,
      keeps the loop state in step with the longer queue. */
  lemma Push<T>(q: seq<T>, flushes: seq<seq<T>>, pending: seq<T>, x: T)
    requires Pending(q, flushes, pending)
    ensures var p := pending + [x];
      if |p| >= BatchSize then Pending(q + [x], flushes + [p], []) else Pending(q + [x], flushes, p)
  {
    var p := pending + [x];
    var q1 := q + [x];
    var done := q[..BatchSize * |flushes|];
    assert q1[..BatchSize * |flushes|] == done;
    assert p == q1[BatchSize * |flushes|..];
    if |p| >= BatchSize {
      BatchesAppend(done, p);
      assert done + p == q1;
      assert q1[..BatchSize * (|flushes| + 1)] == q1;
      assert Batches(p) == [p];
    }
  }

  /** The final flush of a non-empty remainder completes the batches of the queue. */
  lemma Finish<T>(q: seq<T>, flushes: seq<seq<T>>, pending: seq<T>)
    requires Pending(q, flushes, pending)
    ensures (if |pending| > 0 then flushes + [pending] else flushes) == Batches(q)
  {
    var done := q[..BatchSize * |flushes|];
    BatchesAppend(done, pending);
    assert done + pending == q;
    if |pending| == 0 {
      assert Batches(pending) == [];
    }
  }

  /** One step of the loop: append `x` to the pending items and write them out
      as soon as there are 50. */
  method Enqueue<T>(ghost q: seq<T>, flushes: seq<seq<T>>, pending: seq<T>, x: T)
    returns (flushes': seq<seq<T>>, pending': seq<T>)
    requires Pending(q, flushes, pending)
    ensures Pending(q + [x], flushes', pending')
    ensures |pending + [x]| == BatchSize ==> flushes' == flushes + [pending + [x]] && pending' == []
    ensures |pending + [x]| < BatchSize ==> flushes' == flushes && pending' == pending + [x]
  {
    Push(q, flushes, pending, x);
    pending' := pending + [x];
    flushes' := flushes;
    if |pending'| >= BatchSize {
      flushes' := flushes' + [pending'];
      pending' := [];
    }
  }

  /** The loop as written: `pending` is flushed the moment it reaches 50 items,
      and any remainder is flushed after the loop. */
  method FlushLoop<T>(q: seq<T>) returns (flushes: seq<seq<T>>)
    ensures flushes == Batches(q)
  {
    flushes := [];
    var pending: seq<T> := [];
    var i := 0;
    while i < |q|
      invariant 0 <= i <= |q|
      invariant Pending(q[..i], flushes, pending)
    {
      assert q[..i] + [q[i]] == q[..i + 1];
      flushes, pending := Enqueue(q[..i], flushes, pending, q[i]);
      i := i + 1;
    }
    assert q[..i] == q;
    Finish(q, flushes, pending);
    if |pending| > 0 {
      flushes := flushes + [pending];
    }
  }

  /** A queue of 127 updates is written as 50, 50 and 27. */
  lemma BatchExample<T>(q: seq<T>)
    requires |q| == 127
    ensures |Batches(q)| == 3
    ensures |Batches(q)[0]| == 50 && |Batches(q)[1]| == 50 && |Batches(q)[2]| == 27
  {
    assert |Batches(q[100..])| == 1;
  }
}
