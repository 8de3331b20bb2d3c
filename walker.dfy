/** The walker process: one bounded one-dimensional random walk.
    The pseudo-random generator is a parameter `rand`, where `rand(i)` is the
    value the (i+1)-th call of std::rand returns; the walk looks only at its
    parity. */
module Walker {
  import opened CInt

  /** The move chosen by one draw: an even draw steps left, an odd one right. */
  function Direction(draw: nat): (d: int)
    ensures d == -1 || d == 1
    ensures d == -1 <==> draw % 2 == 0
  {
    if draw % 2 == 0 then -1 else 1
  }

  /** Reference definition: where the walker is after `k` moves, whatever the
      bounds are (the sum of the first `k` directions). */
  function PositionAfter(rand: nat -> nat, k: nat): int
  {
    if k == 0 then 0 else PositionAfter(rand, k - 1) + Direction(rand(k - 1))
  }

  /** The loop guard, evaluated before move `k`. */
  predicate Continues(domainSize: int, maxSteps: int, rand: nat -> nat, k: nat)
  {
    Abs(PositionAfter(rand, k)) <= domainSize && k < maxSteps
  }

  /** `n` is the first move count at which the loop guard fails. */
  predicate IsFirstExit(domainSize: int, maxSteps: int, rand: nat -> nat, n: nat)
  {
    && (forall k :: 0 <= k < n ==> Continues(domainSize, maxSteps, rand, k))
    && !Continues(domainSize, maxSteps, rand, n)
  }

  /** The walker's local state: `position` and `steps`. */
  datatype WalkState = WalkState(position: int, steps: nat)

  /** The walk loop, run from state `s` until its guard fails. */
  function WalkFrom(domainSize: int, maxSteps: int, rand: nat -> nat, s: WalkState): WalkState
    decreases maxSteps - s.steps
  {
    if Abs(s.position) <= domainSize && s.steps < maxSteps then
      WalkFrom(domainSize, maxSteps, rand,
               WalkState(s.position + Direction(rand(s.steps)), s.steps + 1))
    else
      s
  }

  /** The whole walk, from position 0 with no moves taken. */
  function Walk(domainSize: int, maxSteps: int, rand: nat -> nat): WalkState
  {
    WalkFrom(domainSize, maxSteps, rand, WalkState(0, 0))
  }

  /** Each move changes the position by one, so after `k` moves the distance
      from the origin is at most `k` and has the parity of `k`. */
  lemma {:induction false} PositionAfterBounds(rand: nat -> nat, k: nat)
    ensures Abs(PositionAfter(rand, k)) <= k
    ensures PositionAfter(rand, k) % 2 == k % 2
  {
    if k > 0 {
      PositionAfterBounds(rand, k - 1);
    }
  }

  lemma {:induction false} WalkFromFirstExit(domainSize: int, maxSteps: int, rand: nat -> nat, s: WalkState)
    requires s.position == PositionAfter(rand, s.steps)
    requires forall k :: 0 <= k < s.steps ==> Continues(domainSize, maxSteps, rand, k)
    ensures var r := WalkFrom(domainSize, maxSteps, rand, s);
      r.position == PositionAfter(rand, r.steps) && IsFirstExit(domainSize, maxSteps, rand, r.steps)
    decreases maxSteps - s.steps
  {
    if Abs(s.position) <= domainSize && s.steps < maxSteps {
      var t := WalkState(s.position + Direction(rand(s.steps)), s.steps + 1);
      assert Continues(domainSize, maxSteps, rand, s.steps);
      WalkFromFirstExit(domainSize, maxSteps, rand, t);
    }
  }

  /** The walk ends at the first move count at which the guard fails, at the
      position the draws up to then lead to. */
  lemma WalkIsFirstExit(domainSize: int, maxSteps: int, rand: nat -> nat)
    ensures var r := Walk(domainSize, maxSteps, rand);
      r.position == PositionAfter(rand, r.steps) && IsFirstExit(domainSize, maxSteps, rand, r.steps)
  {
    WalkFromFirstExit(domainSize, maxSteps, rand, WalkState(0, 0));
  }

  /** The first exit is unique: the walk's outcome is fully determined. */
  lemma FirstExitUnique(domainSize: int, maxSteps: int, rand: nat -> nat, n1: nat, n2: nat)
    requires IsFirstExit(domainSize, maxSteps, rand, n1)
    requires IsFirstExit(domainSize, maxSteps, rand, n2)
    ensures n1 == n2
  {
  }

  /** What the walk promises on exit: the negated guard, the step bound,
      the unit-move invariants and the first-crossing overshoot of one. */
  lemma WalkBounds(domainSize: int, maxSteps: int, rand: nat -> nat)
    ensures var r := Walk(domainSize, maxSteps, rand);
      && (Abs(r.position) > domainSize || r.steps >= maxSteps)
      && (maxSteps >= 0 ==> r.steps <= maxSteps)
      && (maxSteps < 0 ==> r.steps == 0)
      && Abs(r.position) <= r.steps
      && r.position % 2 == r.steps % 2
      && (domainSize >= 0 ==> Abs(r.position) <= domainSize + 1)
  {
    var r := Walk(domainSize, maxSteps, rand);
    WalkIsFirstExit(domainSize, maxSteps, rand);
    PositionAfterBounds(rand, r.steps);
    if r.steps > 0 {
      assert Continues(domainSize, maxSteps, rand, r.steps - 1);
    }
  }

  /** Degenerate bounds give no move at all; a zero-width domain is left on
      the first move; with room to move, at least one move is made. */
  lemma WalkEdgeCases(domainSize: int, maxSteps: int, rand: nat -> nat)
    ensures maxSteps <= 0 || domainSize < 0 ==> Walk(domainSize, maxSteps, rand) == WalkState(0, 0)
    ensures domainSize >= 0 && maxSteps >= 1 ==> Walk(domainSize, maxSteps, rand).steps >= 1
    ensures domainSize == 0 && maxSteps >= 1 ==>
      Walk(domainSize, maxSteps, rand).steps == 1 && Abs(Walk(domainSize, maxSteps, rand).position) == 1
  {
    var r := Walk(domainSize, maxSteps, rand);
    WalkIsFirstExit(domainSize, maxSteps, rand);
    if maxSteps <= 0 || domainSize < 0 {
      assert !Continues(domainSize, maxSteps, rand, 0);
      FirstExitUnique(domainSize, maxSteps, rand, r.steps, 0);
    }
    if domainSize >= 0 && maxSteps >= 1 {
      assert Continues(domainSize, maxSteps, rand, 0);
    }
    if domainSize == 0 && maxSteps >= 1 {
      assert PositionAfter(rand, 1) == Direction(rand(0));
      assert !Continues(domainSize, maxSteps, rand, 1);
      assert IsFirstExit(domainSize, maxSteps, rand, 1);
      FirstExitUnique(domainSize, maxSteps, rand, r.steps, 1);
    }
  }

  lemma {:induction false} PositionAfterAgrees(rand1: nat -> nat, rand2: nat -> nat, n: nat)
    requires forall i :: 0 <= i < n ==> rand1(i) % 2 == rand2(i) % 2
    ensures forall k :: 0 <= k <= n ==> PositionAfter(rand1, k) == PositionAfter(rand2, k)
  {
    if n > 0 {
      PositionAfterAgrees(rand1, rand2, n - 1);
      assert Direction(rand1(n - 1)) == Direction(rand2(n - 1));
    }
  }

  /** Determinism: the walk depends only on the parities of the draws it
      actually makes, so the same bits and bounds give the same walk. */
  lemma WalkDependsOnDrawsMade(domainSize: int, maxSteps: int, rand1: nat -> nat, rand2: nat -> nat)
    requires forall i :: 0 <= i < Walk(domainSize, maxSteps, rand1).steps ==> rand1(i) % 2 == rand2(i) % 2
    ensures Walk(domainSize, maxSteps, rand2) == Walk(domainSize, maxSteps, rand1)
  {
    var r1 := Walk(domainSize, maxSteps, rand1);
    var r2 := Walk(domainSize, maxSteps, rand2);
    WalkIsFirstExit(domainSize, maxSteps, rand1);
    WalkIsFirstExit(domainSize, maxSteps, rand2);
    PositionAfterAgrees(rand1, rand2, r1.steps);
    forall k | 0 <= k <= r1.steps
      ensures Continues(domainSize, maxSteps, rand1, k) == Continues(domainSize, maxSteps, rand2, k)
    {
    }
    assert IsFirstExit(domainSize, maxSteps, rand2, r1.steps);
    FirstExitUnique(domainSize, maxSteps, rand2, r1.steps, r2.steps);
  }

  /** walker_process's loop; the configuration globals are parameters and
      the random source is `rand`. */
  method WalkerProcess(domainSize: Int32, maxSteps: Int32, rand: nat -> nat) returns (position: Int32, steps: Int32)
    ensures 0 <= steps
    ensures position == Walk(domainSize, maxSteps, rand).position
    ensures steps == Walk(domainSize, maxSteps, rand).steps
    ensures Abs(position) > domainSize || steps >= maxSteps
    ensures maxSteps >= 0 ==> steps <= maxSteps
    ensures Abs(position) <= steps && position % 2 == steps % 2
    ensures domainSize >= 0 ==> Abs(position) <= domainSize + 1
  {
    WalkBounds(domainSize, maxSteps, rand);
    position := 0;
    steps := 0;
    while Abs(position) <= domainSize && steps < maxSteps
      invariant 0 <= steps <= Max(maxSteps, 0)
      invariant Abs(position) <= steps && position % 2 == steps % 2
      invariant WalkFrom(domainSize, maxSteps, rand, WalkState(position, steps)) == Walk(domainSize, maxSteps, rand)
      decreases maxSteps - steps
    {
      var direction: Int32 := Direction(rand(steps));
      position := position + direction;
      steps := steps + 1;
    }
  }
}
