/**
 * Answering the items of a form one after the other, with the request
 * numbering carried over from each item to the next. The run of one item is
 * abstract here: `run(item, start)` is the resolution of `item` when its first
 * request has number `start`.
 */
module RequestChain {
  import opened RetryPolicy

  /** The first request number after the runs `prior`: 0 when there are none. */
  function StartAfter(prior: seq<Resolution>): nat {
    if |prior| == 0 then 0 else prior[|prior| - 1].next
  }

  /** The runs of the first `k` items, in order. */
  function Chain<I>(items: seq<I>, run: (I, nat) -> Resolution, k: nat): (runs: seq<Resolution>)
    requires k <= |items|
    ensures |runs| == k
  {
    if k == 0 then []
    else
      var prior := Chain(items, run, k - 1);
      prior + [run(items[k - 1], StartAfter(prior))]
  }

  /** The chain grows by the run of the next item, started where the chain left off. */
  lemma ChainGrows<I>(items: seq<I>, run: (I, nat) -> Resolution, k: nat, r: Resolution)
    requires k < |items| && r == run(items[k], StartAfter(Chain(items, run, k)))
    ensures Chain(items, run, k + 1) == Chain(items, run, k) + [r]
  {
  }

  /**
   * The numbering carries over: the first item starts at request 0, and every
   * later item at the first request number its predecessor left unused.
   */
  lemma {:induction false} ChainLinks<I>(items: seq<I>, run: (I, nat) -> Resolution, n: nat)
    requires n <= |items|
    ensures n > 0 ==> Chain(items, run, n)[0] == run(items[0], 0)
    ensures forall k {:trigger Chain(items, run, n)[k]} :: 0 < k < n ==>
      Chain(items, run, n)[k] == run(items[k], Chain(items, run, n)[k - 1].next)
  {
    if n > 0 {
      var prior := Chain(items, run, n - 1);
      ChainLinks(items, run, n - 1);
      forall k | 0 < k < n
        ensures Chain(items, run, n)[k] == run(items[k], Chain(items, run, n)[k - 1].next)
      {
        if k < n - 1 {
          assert Chain(items, run, n)[k] == prior[k] && Chain(items, run, n)[k - 1] == prior[k - 1];
        }
      }
    }
  }

  /** Item `k`'s run within any longer chain, with the request number it starts at. */
  lemma ChainAt<I>(items: seq<I>, run: (I, nat) -> Resolution, n: nat, k: nat)
    requires k < n <= |items|
    ensures Chain(items, run, n)[k] ==
      run(items[k], if k == 0 then 0 else Chain(items, run, n)[k - 1].next)
  {
    ChainLinks(items, run, n);
  }
}
