# Banker's-algorithm resource bank in Dafny

This project models the resource bank of a Banker's-algorithm simulator.
The bank holds four pieces of state:

- `available`, the units of each of R resource types that nobody holds;
- `max`, a P×R matrix of the most each process may ever hold;
- `allocation`, a P×R matrix of what each process holds now;
- `need`, a P×R matrix of what each process may still ask for.

A process asks for a request vector. The bank grants it only if two states are
safe: the current state, and the state after the request has been applied to
copies of the matrices. A state is safe when some completion order lets every
process get its remaining need in turn and then hand back what it holds. A
process that is done releases its whole allocation, and its need is reset to
its maximum.

The project has three modules:

- `Banker` (`banker.dfy`) is the value-level specification. It defines the
  `State` datatype; `Safe`, meaning a safe completion order exists;
  `Grant`, `Release` and `Initial`; the conserved `Totals`; and the lemmas
  about all of them.
- `ResourceBank` (`resource_bank.dfy`) models the program's arrays and loops. It uses
  arrays (`array<int>` for vectors, `array2<int>` for matrices). It has the
  greedy safety loop `IsSafeState`, the in-place `EffectRequest`, the copy
  and add helpers, and the class `Bank`, whose methods update their fields
  in place. Each method is proved against the functions of `Banker`.
- `Scenario` (`scenario.dfy`) works through the driver's five-process,
  four-resource configuration and a small bank in which a request is refused.

The bank keeps these invariants, stated in `Bank.Valid` and `Banker.Consistent`:

- `need == max − allocation`;
- allocations are never negative;
- for each resource type, `available` plus everything allocated equals the
  total the bank was created with.

A separate predicate `Bounded` says that no need is negative and nothing is
overdrawn. Every operation keeps it, and a new bank satisfies it exactly
when its inputs are non-negative. A granted request always leaves a safe
state. A refused request changes nothing. A release keeps a safe state safe.

The model makes three choices where a hardened bank might differ:

- The release resets the process's need to its maximum, as the code does.
- A dimension mismatch is a precondition, not a reported error.
- The code does not check that a request stays within the process's need.
  The model makes `0 ≤ request ≤ need` a precondition of
  `RequestResource`, as the comment at `ResourceBank.java:7` assumes.

## Model

| member | source | states |
|---|---|---|
| `ResourceBank.Bank.constructor` | src/bankersalgorithm/ResourceBank.java:25-51 | the new bank is valid: its state is `Initial(available, max)`, so need equals max and every allocation is 0. Its totals are the initial available units. It is within bounds exactly when the inputs are non-negative |
| `ResourceBank.Bank.NumResourceTypes` | src/bankersalgorithm/ResourceBank.java:53 | the number of resource types. This is the length of the totals and of every need row |
| `ResourceBank.Bank.GetNeed` | src/bankersalgorithm/ResourceBank.java:55 | a snapshot (a value) of process `workerIndex`'s need. It equals that process's max row minus its allocation row |
| `ResourceBank.Bank.RequestResource` | src/bankersalgorithm/ResourceBank.java:58-139 | grants exactly when the live state and the state after the grant are both safe. If granted, the new state is `Grant(old state)` and is safe. If refused, nothing changes. The invariants and the bounds are kept |
| `ResourceBank.EffectRequest` | src/bankersalgorithm/ResourceBank.java:141-156 | the three given arrays now hold `Grant` of their old contents: available decreases by the request, and row `index` of allocation increases (and of need decreases) by it. Every other row and every other object is untouched |
| `ResourceBank.IsSafeState` | src/bankersalgorithm/ResourceBank.java:159-214 | a true answer means a safe completion order exists. With non-negative allocations, a false answer means none exists, so the answer is exact. The loop terminates and has no `modifies` clause, so its arguments are unchanged |
| `ResourceBank.NeedFits` | src/bankersalgorithm/ResourceBank.java:184-192 | true exactly when every entry of the process's need row is at most the matching entry of `work` |
| `ResourceBank.VectorAdd` | src/bankersalgorithm/ResourceBank.java:216-234 | a fresh array that is the elementwise sum of `first` and row `row` of `second` |
| `ResourceBank.Bank.DeAllocateResources` | src/bankersalgorithm/ResourceBank.java:237-257 | the new state is `Release(old state)`. Available gains the old allocation row, that row becomes zero and the need row becomes the max row; other rows are unchanged. Validity, bounds and safety are kept |
| `ResourceBank.CopyMatrix` | src/bankersalgorithm/ResourceBank.java:264-272 | a fresh matrix, independent of its source, holding the same rows (the source must have at least one row) |
| `ResourceBank.CopyVector` | src/bankersalgorithm/ResourceBank.java:273-279 | a fresh array, independent of its source, holding the same values |
| `Banker.SafePrefixAppend` | src/bankersalgorithm/ResourceBank.java:193-196 | a process not yet in the safe sequence whose need fits in the current work vector extends the sequence, and the sequence stays a valid safe prefix |
| `Banker.WorkAfterAppend` | src/bankersalgorithm/ResourceBank.java:194 | admitting a process adds its allocation row to the work vector |
| `Banker.SafePrefixBounded` | src/bankersalgorithm/ResourceBank.java:179-200 | the safe sequence holds distinct indices in [0, P), so it never grows past P. This bounds the termination measure of the loop |
| `Banker.CompletePrefixIsSafe` | src/bankersalgorithm/ResourceBank.java:171-173 | a safe sequence that contains every process witnesses that the state is safe |
| `Banker.StuckImpliesUnsafe` | src/bankersalgorithm/ResourceBank.java:202-210 | suppose allocations are non-negative, not every process has finished, and no unfinished need fits in the work vector. Then no safe completion order exists at all |
| `Banker.SafeSequenceWithinStuck` | src/bankersalgorithm/ResourceBank.java:202-210 | when the search is stuck, every process of any safe sequence is already among the finished ones |
| `Banker.WorkMono` | src/bankersalgorithm/ResourceBank.java:194 | with non-negative allocations, the work vector never decreases as more processes finish |
| `Banker.RowsSumMono` | src/bankersalgorithm/ResourceBank.java:194 | with non-negative allocations, summing a column over a subset of distinct rows gives no more than summing it over a superset |
| `Banker.RowsSumUpdate` | src/bankersalgorithm/ResourceBank.java:150-155 | replacing one row changes a column sum over distinct rows by exactly the change in that row's cell, and only when that row is included |
| `Banker.SafeImpliesAvailableNonNegative` | src/bankersalgorithm/ResourceBank.java:186-196 | in a safe state with at least one process and no negative need, no resource is overdrawn |
| `Banker.InitialInvariants` | src/bankersalgorithm/ResourceBank.java:36-50 | a new bank has need == max − allocation and totals equal to the available units. It is within bounds exactly when its inputs are non-negative |
| `Banker.GrantConservesTotals` | src/bankersalgorithm/ResourceBank.java:150-155 | granting keeps `available[j] + Σ allocation[i][j]` the same for every j |
| `Banker.GrantKeepsConsistent` | src/bankersalgorithm/ResourceBank.java:150-155 | granting a non-negative request keeps need == max − allocation and allocations non-negative |
| `Banker.GrantKeepsBounded` | src/bankersalgorithm/ResourceBank.java:98-104 | a request within the process's need whose result is safe leaves no negative need and nothing overdrawn |
| `Banker.GrantKeepsInvariants` | src/bankersalgorithm/ResourceBank.java:98-104 | committing a checked request keeps consistency and the totals, and also the bounds when the result is safe |
| `Banker.ZeroRequestIsNoOp` | src/bankersalgorithm/ResourceBank.java:150-155 | a request of all zeros leaves the state unchanged |
| `Banker.ReleaseConservesTotals` | src/bankersalgorithm/ResourceBank.java:248-254 | releasing keeps `available[j] + Σ allocation[i][j]` the same for every j |
| `Banker.ReleaseKeepsConsistent` | src/bankersalgorithm/ResourceBank.java:250-254 | resetting need to max and zeroing the allocation row keeps need == max − allocation |
| `Banker.ReleaseKeepsBounded` | src/bankersalgorithm/ResourceBank.java:248-254 | releasing non-negative holdings keeps need non-negative and nothing overdrawn |
| `Banker.ReleaseUndoesGrant` | src/bankersalgorithm/ResourceBank.java:248-254 | releasing right after a grant to the same process gives the same state as releasing without the grant |
| `Banker.ReleaseAfterGrantRestoresInitial` | src/bankersalgorithm/ResourceBank.java:248-254 | on a new bank, releasing a process changes nothing, and a grant followed by a release of the same process restores the initial state |
| `Banker.ReleasePreservesSafety` | src/bankersalgorithm/ResourceBank.java:237-257 | releasing a process's allocation keeps a safe state safe. The same completion order still works |
| `Scenario.InitialSafeWhenMaxFits` | src/bankersalgorithm/ResourceBank.java:36-50 | a new bank in which every process's max fits in the available units is safe |
| `Scenario.SimulationStartsSafe` | src/bankersalgorithm/Simulation.java:7-17 | the driver's configuration ([3,14,11,12] and its five max rows) is safe from the start |
| `Scenario.GranteeReturnsAll` | src/bankersalgorithm/ResourceBank.java:193-196 | after one grant to a new bank, once the grantee (and any processes holding nothing) has finished, the work vector is the initial available vector again |
| `Scenario.SimulationFirstRequestSafe` | src/bankersalgorithm/ResourceBank.java:84-98 | in the driver's configuration, the state after process 0 is given any request within its need is safe |
| `Scenario.GrantThenRelease` | src/bankersalgorithm/ResourceBank.java:237-257 | a new bank grants a request within the process's maximum exactly when the initial state and the state after the grant are safe. After that process's release, the bank is valid and back in its initial state |
| `Scenario.TwoRequests` | src/bankersalgorithm/ResourceBank.java:58-139 | a new bank asked by two different processes in turn: each answer is the safety test on the state the bank is in at that moment. A refused request leaves the state as it was, and the final state is the one the answers determine |
| `Scenario.SimulationFirstRequest` | src/bankersalgorithm/Simulation.java:7-17 | a bank built from the driver's configuration grants process 0 the request [0,0,1,1] its worker thread makes |
| `Scenario.SmallFirstGrantSafe` | src/bankersalgorithm/ResourceBank.java:98-113 | in a bank of 3 units where two processes each have max 3, the initial state is safe, and so is the state after giving process 0 two units |
| `Scenario.SecondRequestUnsafe` | src/bankersalgorithm/ResourceBank.java:115-124 | on that bank, giving process 1 one unit after process 0's two leaves a state with no safe order |
| `Scenario.RefusedRequestScenario` | src/bankersalgorithm/ResourceBank.java:115-124 | on that bank the first request is granted and the second refused (through `TwoRequests`, so the refusal leaves the state as the first grant made it) |

## Left out

- The `Semaphore` mutex and its acquire/release are left out. Each bank operation is modelled as one atomic method, so concurrency and the serialisation it provides are not modelled.
- The `InterruptedException` handler in the release operation is left out, because it only logs.
- Console output and the `StringBuilder` that formats the request are left out. They only report progress.
- `Worker.java` is not part of this model: the threads that generate requests, acquire the mutex and call the bank. The requests in `Scenario` are requests within each process's need; for the driver's configuration it uses the request [0,0,1,1] that process 0's worker makes. `Simulation.java` is left out as a driver; its configuration appears only as the concrete states in `Scenario`.
- Java reference aliasing is not modelled. The constructor stores the caller's `available` and `max` arrays, and `getNeed` hands out the live need row. The model copies the inputs and returns the need row as a value, and outside mutation through such aliases is not modelled.
- Java's 32-bit `int` overflow is not modelled; integers are unbounded.
- `vectorAdd`'s `null` result for vectors of different lengths is not modelled. Equal lengths are a precondition of `VectorAdd`.
- `ResourceBank.VectorAdd`: Dafny has no row view of an `array2`, so the second operand is passed as a matrix and a row number. The code always passes a row of an allocation matrix there.
- Jagged `int[][]` arrays are modelled as rectangular `array2<int>`. The Java constructor always builds rectangular `need` and `allocation` matrices; the model's constructor requires every row of `max` to be as long as `available`.
- `ResourceBank.NeedFits`: the inner need-against-work loop of `isSafeState` (lines 184-192) is a separate method here, to keep the verification of `IsSafeState` small. Its loop and early exit are the same as in the code.
- `ResourceBank.IsSafeState`: a false answer is proved exact (no safe order exists) only when no allocation is negative. The bank's own invariant guarantees that, for the live state and for the copies. For arbitrary inputs the model states only that a true answer is correct.
- `ResourceBank.Bank.RequestResource`: the source does not check that `0 ≤ request ≤ need`, but the model requires it. Without it, a grant could break the allocation bounds.
