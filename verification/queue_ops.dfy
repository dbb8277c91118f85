/** What the two ring buffers' whole-run properties share: the calls a run
    is made of, and the sequence bookkeeping of one call. */
module QueueOps {

  /** One call made on a queue: a push by a producer or a pop by the
      consumer. */
  datatype Op<T> = Push(item: T) | Pop

  /** Sequence bookkeeping of a push that appends `p` (one item or none):
      if the rest of the run balances from the state after the push, the
      whole run balances from the state before it. */
  lemma PushBookkeeping<T>(c: seq<T>, p: seq<T>, c1: seq<T>, acc: seq<T>, del: seq<T>, cr: seq<T>)
    requires c1 == c + p && c1 + acc == del + cr
    ensures c + (p + acc) == del + cr
  {
    assert c + (p + acc) == (c + p) + acc;
  }

  /** Sequence bookkeeping of a pop that removes `p` (one item or none) from
      the front. */
  lemma PopBookkeeping<T>(c: seq<T>, p: seq<T>, c1: seq<T>, acc: seq<T>, del: seq<T>, cr: seq<T>)
    requires c == p + c1 && c1 + acc == del + cr
    ensures c + acc == (p + del) + cr
  {
    assert (p + c1) + acc == p + (c1 + acc);
    assert p + (del + cr) == (p + del) + cr;
  }
}
