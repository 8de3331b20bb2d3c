/** The whole job: rank 0 runs the controller, every other rank a walker, and
    each walker's only message is one int with tag 0, sent to rank 0. */
module Protocol {
  import opened CInt
  import opened Controller

  /** The messages the process of rank `rank` sends to the controller. */
  function SentBy(rank: nat): seq<Arrival>
  {
    if rank == 0 then [] else [Arrival(rank, 0, 1)]
  }

  /** Everything sent to rank 0 by the ranks below `worldSize`, in rank order. */
  function AllSent(worldSize: int): seq<Arrival>
    decreases worldSize
  {
    if worldSize <= 0 then [] else AllSent(worldSize - 1) + SentBy(worldSize - 1)
  }

  /** Each walker rank 1 .. worldSize - 1 sends exactly one single-int message
      with tag 0, and the controller sends nothing. */
  lemma {:induction false} AllSentShape(worldSize: int)
    ensures |AllSent(worldSize)| == Max(worldSize - 1, 0)
    ensures forall i :: 0 <= i < |AllSent(worldSize)| ==> AllSent(worldSize)[i] == Arrival(i + 1, 0, 1)
    decreases worldSize
  {
    if worldSize > 0 {
      AllSentShape(worldSize - 1);
    }
  }

  lemma {:induction false} AllSignalsCount(arrivals: seq<Arrival>, k: nat)
    requires k <= |arrivals|
    requires forall i :: 0 <= i < |arrivals| ==> IsSignal(arrivals[i])
    ensures Signals(arrivals[..k]) == k
  {
    if k > 0 {
      AllSignalsCount(arrivals, k - 1);
      SignalsSnoc(arrivals, k - 1);
    }
  }

  /** End to end: whatever order the walkers' signals arrive in, the controller
      finishes, having consumed exactly one signal per walker. */
  lemma EndToEnd(worldSize: int, arrivals: seq<Arrival>)
    requires multiset(arrivals) == multiset(AllSent(worldSize))
    ensures |arrivals| == Max(worldSize - 1, 0)
    ensures Run(worldSize, arrivals) == Tally(Max(worldSize - 1, 0), |arrivals|, false)
  {
    AllSentShape(worldSize);
    var w := Max(worldSize - 1, 0);
    assert |arrivals| == |multiset(arrivals)| == |multiset(AllSent(worldSize))| == w;
    forall i | 0 <= i < |arrivals|
      ensures IsSignal(arrivals[i])
    {
      assert arrivals[i] in multiset(AllSent(worldSize));
    }
    AllSignalsCount(arrivals, |arrivals|);
    assert arrivals[..|arrivals|] == arrivals;
    ControllerSpec(worldSize, arrivals);
    var r := Run(worldSize, arrivals);
    AllSignalsCount(arrivals, r.consumed);
  }
}
