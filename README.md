# MPI random walk: walker and controller

A model of `random_walk.cpp`, an MPI program in which rank 0 is a controller
and every other rank is a walker. Each walker runs a bounded one-dimensional
random walk from position 0. The walk stops once the walker is more than
`domain_size` away from the origin or has taken `max_steps` steps. The walker
then sends one single-int message to rank 0. The controller counts
single-int messages from any source with any tag until it has one per walker,
that is `world_size - 1`.

Files and modules:

- `cint.dfy`, module `CInt`: the C `int` as the subset type `Int32`, and
  the mathematical absolute value. The locals `position`, `steps` and
  `direction` of the walker, `completed_walkers` and `total_walkers` of the
  controller, and the probed `count` get this type in the model, so
  verification also shows that the loops never overflow.
- `walker.dfy`, module `Walker`: the walk loop. `rand(i)` is the value
  returned by the (i+1)-th call of `std::rand`. An even draw steps left and an
  odd one steps right. `WalkFrom` mirrors the loop. `PositionAfter`, `Continues`
  and `IsFirstExit` give an independent definition of where the walk stops:
  the first move count at which the guard fails. `WalkerProcess` is the
  imperative loop, proved equal to `Walk`.
- `controller.dfy`, module `Controller`: the tally loop. The MPI transport is
  the sequence of messages that successive `MPI_Probe` calls report. If the
  sequence runs out before the count is complete, the controller is left
  blocked in `MPI_Probe`; the model reports this as `waiting`.
  `ControllerProcess` is the imperative loop, proved equal to `Run`.
- `protocol.dfy`, module `Protocol`: what each rank sends to rank 0, and the
  end-to-end fact that the controller finishes on the walkers' signals in any
  arrival order.

Two edge cases follow from the program as written:

- The walker's `while` loop tests its guard before every step, so with
  `max_steps <= 0` or `domain_size < 0` it takes no step and stays at 0.
- With `world_size <= 1` the controller's loop does not run: it consumes no
  message and counts 0. The total it reports is `world_size - 1`.

## Model

| member | source | states |
|---|---|---|
| `Walker.Direction` | random_walk.cpp:57 | every draw moves by exactly -1 or +1, and by -1 exactly when the draw is even |
| `Walker.PositionAfterBounds` | random_walk.cpp:57-59 | after k unit moves, the distance from the origin is at most k and has the parity of k |
| `Walker.WalkIsFirstExit` | random_walk.cpp:52-60 | the walk ends at the first move count where the guard fails, at the position the draws lead to; the guard held before every earlier move |
| `Walker.WalkBounds` | random_walk.cpp:52-60 | on exit the guard is false; `0 <= steps <= max_steps` when `max_steps >= 0`, and no steps otherwise; `abs(position) <= steps` with equal parity; for `domain_size >= 0`, `abs(position) <= domain_size + 1` |
| `Walker.WalkEdgeCases` | random_walk.cpp:52-60 | `max_steps <= 0` or `domain_size < 0` gives 0 steps at position 0; `domain_size >= 0` and `max_steps >= 1` give at least one step; `domain_size == 0` and `max_steps >= 1` give exactly one step, ending at distance 1 |
| `Walker.WalkDependsOnDrawsMade` | random_walk.cpp:55-59 | two random sources with the same parities on the draws the walk makes give the same final position and step count |
| `Walker.WalkerProcess` | random_walk.cpp:48-60 | the loop returns `Walk`'s position and step count, the negated guard and the bounds above, and no `int` overflows |
| `Controller.SignalsPrefix` | random_walk.cpp:81-88 | the count over a longer prefix of arrivals grows by at most one per arrival and never shrinks |
| `Controller.SignalsPermutation` | random_walk.cpp:76-88 | the number of single-int messages depends only on the multiset of arrivals |
| `Controller.ControllerSpec` | random_walk.cpp:70-89 | `0 <= completed <= max(total, 0)`; the count equals the signals in the consumed prefix; no shorter prefix reached `total`; the controller stays waiting exactly when fewer than `total` signals arrive; for `total >= 0` it exits exactly when `completed == total`; with `world_size <= 1` it consumes nothing and counts 0 |
| `Controller.ControllerOrderIndependent` | random_walk.cpp:76-88 | any permutation of the same arrivals gives the same count and the same finished/waiting verdict |
| `Controller.ControllerIgnoresSenderAndTag` | random_walk.cpp:76-88 | arrivals that differ only in sender and tag give the same result, including the number consumed |
| `Controller.ControllerProcess` | random_walk.cpp:68-89 | the loop returns `Run`'s result, a count between 0 and `max(world_size - 1, 0)`, and waits exactly when too few signals arrive; no `int` overflows |
| `Protocol.AllSentShape` | random_walk.cpp:64-65 | ranks below `world_size` send `max(world_size - 1, 0)` messages to rank 0: one from each walker rank 1 .. world_size - 1, each with tag 0 and one int |
| `Protocol.EndToEnd` | random_walk.cpp:71-87 | if the arrivals are any permutation of the walkers' messages, the controller finishes with count `world_size - 1` after consuming exactly those messages |

## Left out

- MPI runtime calls (`MPI_Init`, `MPI_Comm_size`, `MPI_Comm_rank`, `MPI_Finalize`, `MPI_Send`, `MPI_Probe`, `MPI_Get_count`, `MPI_Recv`): foreign library calls. The arrival sequence stands for what the probes report. The values of `world_rank` and `world_size` are parameters.
- Concurrency and blocking between processes: interleaving appears only as arrival order. The probe that never returns is the `waiting` result.
- A probed message whose count is not 1 is never received, so MPI would report it again on a later probe. The model does not generate such repeats; each one would be a further entry of the arrival sequence.
- Seeding and drawing with `std::srand`, `std::rand` and `std::time` (random_walk.cpp:50, 57): the generator is the parameter `rand`. Draws are unbounded naturals, not values up to `RAND_MAX`; only their parity is used.
- Argument checking and `std::atoi` parsing (random_walk.cpp:21-33): process start-up and exit status. The bounds are `Int32` parameters.
- The output lines (random_walk.cpp:25, 62, 91): I/O.
- `main`'s rank dispatch (random_walk.cpp:35-42) is modelled only by `Protocol.SentBy`: rank 0 sends nothing and every other rank sends one signal.
- Controller.ControllerOrderIndependent: does not say that the number of consumed messages is the same, because messages whose count is not 1 can be placed before or after the last signal.
- Controller.ControllerProcess: requires `world_size - 1` to be a representable `int`, because the source computes it in `int`. MPI always gives a `world_size` of at least 1.
