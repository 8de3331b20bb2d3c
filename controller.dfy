/** The controller process: counts completion signals until every walker has
    reported. The MPI transport is abstracted as the sequence of messages that
    successive calls of MPI_Probe (any source, any tag) report. */
module Controller {
  import opened CInt

  /** One probed message: its sender, its tag and its size in ints. */
  datatype Arrival = Arrival(source: int, tag: int, count: Int32)

  /** A message counts as a completion signal when it holds exactly one int. */
  predicate IsSignal(a: Arrival)
  {
    a.count == 1
  }

  /** The number of completion signals among the arrivals. */
  function Signals(arrivals: seq<Arrival>): nat
  {
    if arrivals == [] then 0
    else Signals(arrivals[..|arrivals| - 1]) + (if IsSignal(arrivals[|arrivals| - 1]) then 1 else 0)
  }

  /** What the controller ends with: its count, how many probed messages it
      looked at, and whether it is still blocked in MPI_Probe because no
      further message arrives. */
  datatype Tally = Tally(completed: int, consumed: nat, waiting: bool)

  /** The tally loop, run from the `next` arrival with `completed` signals so far. */
  function RunFrom(total: int, arrivals: seq<Arrival>, next: nat, completed: int): Tally
    requires next <= |arrivals|
    decreases |arrivals| - next
  {
    if completed >= total then Tally(completed, next, false)
    else if next == |arrivals| then Tally(completed, next, true)
    else RunFrom(total, arrivals, next + 1, completed + if IsSignal(arrivals[next]) then 1 else 0)
  }

  /** The whole controller run for a job of `worldSize` processes. */
  function Run(worldSize: int, arrivals: seq<Arrival>): Tally
  {
    RunFrom(worldSize - 1, arrivals, 0, 0)
  }

  lemma SignalsSnoc(arrivals: seq<Arrival>, j: nat)
    requires j < |arrivals|
    ensures Signals(arrivals[..j + 1]) == Signals(arrivals[..j]) + if IsSignal(arrivals[j]) then 1 else 0
  {
    assert arrivals[..j + 1][..j] == arrivals[..j];
  }

  /** Counting a longer prefix finds at least as many signals, and at most
      one more per extra arrival. */
  lemma {:induction false} SignalsPrefix(arrivals: seq<Arrival>, j: nat, k: nat)
    requires j <= k <= |arrivals|
    ensures Signals(arrivals[..j]) <= Signals(arrivals[..k]) <= Signals(arrivals[..j]) + (k - j)
    decreases k
  {
    if j < k {
      SignalsPrefix(arrivals, j, k - 1);
      SignalsSnoc(arrivals, k - 1);
    }
  }

  lemma {:induction false} SignalsConcat(a: seq<Arrival>, b: seq<Arrival>)
    ensures Signals(a + b) == Signals(a) + Signals(b)
    decreases |b|
  {
    if b != [] {
      assert (a + b)[..|a + b| - 1] == a + b[..|b| - 1];
      SignalsConcat(a, b[..|b| - 1]);
    } else {
      assert a + b == a;
    }
  }

  /** Only the multiset of arrivals matters to the number of signals. */
  lemma {:induction false} SignalsPermutation(a: seq<Arrival>, b: seq<Arrival>)
    requires multiset(a) == multiset(b)
    ensures Signals(a) == Signals(b)
    decreases |a|
  {
    if a != [] {
      var x := a[|a| - 1];
      var a' := a[..|a| - 1];
      assert a == a' + [x];
      assert x in multiset(b);
      var i :| 0 <= i < |b| && b[i] == x;
      var b' := b[..i] + b[i + 1..];
      assert b == b[..i] + [x] + b[i + 1..];
      assert multiset(b) == multiset(b[..i]) + multiset{x} + multiset(b[i + 1..]);
      assert multiset(b') == multiset(b[..i]) + multiset(b[i + 1..]);
      assert multiset(a) == multiset(a') + multiset{x};
      assert multiset(b) == multiset(b') + multiset{x};
      assert multiset(a') == multiset(a) - multiset{x} == multiset(b) - multiset{x} == multiset(b');
      SignalsPermutation(a', b');
      SignalsConcat(a', [x]);
      SignalsConcat(b[..i] + [x], b[i + 1..]);
      SignalsConcat(b[..i], [x]);
      SignalsConcat(b[..i], b[i + 1..]);
      assert Signals([x]) == Signals([]) + if IsSignal(x) then 1 else 0;
    } else {
      assert |b| == |multiset(b)| == 0;
    }
  }

  lemma {:induction false} ControllerFromSpec(total: int, arrivals: seq<Arrival>, next: nat, completed: int)
    requires next <= |arrivals|
    requires completed == Signals(arrivals[..next])
    requires forall j :: 0 <= j < next ==> Signals(arrivals[..j]) < total
    ensures var r := RunFrom(total, arrivals, next, completed);
      && next <= r.consumed <= |arrivals|
      && r.completed == Signals(arrivals[..r.consumed])
      && (forall j :: 0 <= j < r.consumed ==> Signals(arrivals[..j]) < total)
      && (r.waiting <==> r.completed < total)
      && (r.waiting ==> r.consumed == |arrivals|)
    decreases |arrivals| - next
  {
    if completed < total && next < |arrivals| {
      SignalsSnoc(arrivals, next);
      ControllerFromSpec(total, arrivals, next + 1, completed + if IsSignal(arrivals[next]) then 1 else 0);
    }
  }

  /** What controller_process promises: with total = worldSize - 1 it counts
      between 0 and total signals; it stops on the first signal that brings the
      count to total, never earlier; it stays waiting exactly when fewer than
      total signals ever arrive; and with no walkers it consumes nothing. */
  lemma ControllerSpec(worldSize: int, arrivals: seq<Arrival>)
    ensures var r, total := Run(worldSize, arrivals), worldSize - 1;
      && 0 <= r.completed <= Max(total, 0)
      && r.consumed <= |arrivals|
      && r.completed == Signals(arrivals[..r.consumed])
      && (forall j :: 0 <= j < r.consumed ==> Signals(arrivals[..j]) < total)
      && (r.waiting <==> Signals(arrivals) < total)
      && (!r.waiting ==> r.completed == Max(total, 0))
      && (total >= 0 ==> (!r.waiting <==> r.completed == total))
      && (r.waiting ==> r.consumed == |arrivals| && r.completed == Signals(arrivals))
      && (worldSize <= 1 ==> r == Tally(0, 0, false))
  {
    var r, total := Run(worldSize, arrivals), worldSize - 1;
    assert arrivals[..0] == [];
    ControllerFromSpec(total, arrivals, 0, 0);
    assert arrivals[..|arrivals|] == arrivals;
    SignalsPrefix(arrivals, r.consumed, |arrivals|);
    if r.consumed > 0 {
      SignalsPrefix(arrivals, r.consumed - 1, r.consumed);
      assert Signals(arrivals[..r.consumed - 1]) < total;
    }
  }

  /** Arrival order does not matter: any permutation of the same messages
      leaves the controller with the same count and the same verdict. */
  lemma ControllerOrderIndependent(worldSize: int, a: seq<Arrival>, b: seq<Arrival>)
    requires multiset(a) == multiset(b)
    ensures Run(worldSize, a).completed == Run(worldSize, b).completed
    ensures Run(worldSize, a).waiting == Run(worldSize, b).waiting
  {
    SignalsPermutation(a, b);
    ControllerSpec(worldSize, a);
    ControllerSpec(worldSize, b);
  }

  lemma {:induction false} ControllerFromIgnoresSenderAndTag(total: int, a: seq<Arrival>, b: seq<Arrival>, next: nat, completed: int)
    requires |a| == |b| && next <= |a|
    requires forall i :: 0 <= i < |a| ==> a[i].count == b[i].count
    ensures RunFrom(total, a, next, completed) == RunFrom(total, b, next, completed)
    decreases |a| - next
  {
    if completed < total && next < |a| {
      ControllerFromIgnoresSenderAndTag(total, a, b, next + 1, completed + if IsSignal(a[next]) then 1 else 0);
    }
  }

  /** The controller reads only each message's size: sender and tag play no
      part, down to how many messages it consumes. */
  lemma ControllerIgnoresSenderAndTag(worldSize: int, a: seq<Arrival>, b: seq<Arrival>)
    requires |a| == |b|
    requires forall i :: 0 <= i < |a| ==> a[i].count == b[i].count
    ensures Run(worldSize, a) == Run(worldSize, b)
  {
    ControllerFromIgnoresSenderAndTag(worldSize - 1, a, b, 0, 0);
  }

  /** controller_process's loop. `world_size` is a parameter; it must leave
      `world_size - 1` representable, as the source computes it in `int`. */
  method ControllerProcess(worldSize: Int32, arrivals: seq<Arrival>) returns (r: Tally)
    requires Int32Min <= worldSize - 1
    ensures r == Run(worldSize, arrivals)
    ensures 0 <= r.completed <= Max(worldSize - 1, 0)
    ensures r.waiting <==> Signals(arrivals) < worldSize - 1
    ensures !r.waiting ==> r.completed == Max(worldSize - 1, 0)
    ensures worldSize <= 1 ==> r == Tally(0, 0, false)
  {
    ControllerSpec(worldSize, arrivals);
    var completedWalkers: Int32 := 0;
    var totalWalkers: Int32 := worldSize - 1;
    var next: nat := 0;
    while completedWalkers < totalWalkers
      invariant next <= |arrivals|
      invariant 0 <= completedWalkers
      invariant RunFrom(totalWalkers, arrivals, next, completedWalkers) == Run(worldSize, arrivals)
      decreases |arrivals| - next
    {
      if next == |arrivals| {
        // MPI_Probe finds no further message: the controller blocks for ever.
        return Tally(completedWalkers, next, true);
      }
      var arrival := arrivals[next];
      next := next + 1;
      if arrival.count == 1 {
        completedWalkers := completedWalkers + 1;
      }
    }
    r := Tally(completedWalkers, next, false);
  }
}
