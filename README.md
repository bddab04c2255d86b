# AllocationLimiter, modelled in Dafny

`AllocationLimiter` is a cooperative memory budget. An application asks it for
a number of bytes before a large allocation (`RequestAllocation`) and tells it
when those bytes are freed (`Deallocated`). The limiter keeps two integers:
`capacity_bytes`, fixed by `New`, and `idle_bytes`, which starts at the
capacity. A request larger than the capacity panics. Any other request is
granted only when `idle_bytes - size_bytes > 0`, and a grant takes the size
from the idle bytes. Otherwise the caller waits for a release notice and checks
again. A release adds its size to the idle bytes with no check.

The model has two modules:

- `Accounting` (`Accounting.dfy`) holds the state as a value
  (`State(capacityBytes, idleBytes)`). It has one request attempt (`Attempt`),
  a release (`Release`) and the retry loop (`Retry`, `BlockingRequest`). It
  also replays interleaved calls with a ledger of outstanding grants
  (`Step`, `Replay`). The lemmas about these are proved here.
- `AllocationLimiter` (`AllocationLimiter.dfy`) holds the class
  `AllocationLimiter`. It has a constant `capacityBytes`, a mutable
  `idleBytes`, and methods that update the field in place. Each method's
  postcondition ties the new state to the matching `Accounting` function.
  `ThreeRequestsScenario` is a client method whose assertions about the
  class are verified.

The panic becomes the outcome `OversizedRequest`.

A waiting caller blocks on an unbuffered channel (AllocationLimiter.go:48,
71). Each release starts a goroutine that sends one notice on it
(AllocationLimiter.go:60-64). That send blocks until some waiter receives
it, so a waiter can be woken by a notice from a release made before its
failed check. Meanwhile any number of releases by other callers, and grants
to other requests, can happen before it checks again. `RequestAllocation`
and `Retry` therefore take a sequence `interleaved`. Each element is the net
change of the idle bytes between one failed check and the next. It may be
positive (releases), zero (a wake-up with no new idle bytes) or negative
(a competing request was granted first). When the sequence is used up, the
request is still waiting (`MustWait`).

Consequences of the code that the model keeps:

- The grant test is strict (`idle_bytes - size_bytes > 0`). So a request for
  exactly the idle bytes waits, where a `>=` test would grant it.
  `CapacityRequestNeverGranted` shows the consequence: a request for the
  whole capacity passes the oversize guard and is never granted to callers
  that pair their calls and request positive sizes.
- `New` accepts any capacity, including zero and negative ones.
- Request and release sizes are not checked for sign.
- A release may push `idle_bytes` above the capacity
  (`OverReleaseExceedsCapacity`). So, from a positive capacity,
  `0 < idle <= capacity` holds only for callers that pair their calls and
  request positive sizes (`PairedCallersStayWithinCapacity`). From a zero or
  negative capacity the idle bytes start at that capacity. A granted request with a negative
  size raises the idle bytes, and can push them above the capacity.

## Model

| member | source | states |
|---|---|---|
| `AllocationLimiter.AllocationLimiter.constructor` | AllocationLimiter.go:69-74 | a new limiter has `capacityBytes == idleBytes ==` the given capacity, with no check on that value |
| `AllocationLimiter.AllocationLimiter.TryRequest` | AllocationLimiter.go:31-50 | one attempt: `OversizedRequest` exactly when the size exceeds the capacity; `Granted` exactly when the size fits and `idle - size > 0`; the idle bytes drop by the size on a grant and are unchanged otherwise; the capacity never changes |
| `AllocationLimiter.AllocationLimiter.RequestAllocation` | AllocationLimiter.go:31-50 | the guard runs once, then the check repeats; after each failed check, the next net change made by other callers is applied; the outcome and new state are those of `Accounting.BlockingRequest` |
| `AllocationLimiter.AllocationLimiter.Deallocated` | AllocationLimiter.go:53-58 | the idle bytes grow by exactly the released size; nothing else changes |
| `Accounting.New` | AllocationLimiter.go:69-74 | no contract of its own (it sets both fields to the capacity); described by `PairedCallersStayWithinCapacity`, `CapacityRequestNeverGranted` and `OverReleaseExceedsCapacity`, and by the constructor's postcondition |
| `Accounting.Release` | AllocationLimiter.go:53-58 | no contract of its own (it adds the size to the idle bytes); described by `GrantThenReleaseRestores`, `OverReleaseExceedsCapacity` and `StepKeepsBalance`, and by `Deallocated`'s postcondition |
| `Accounting.Retry` | AllocationLimiter.go:37-50 | no contract of its own (the `goto retry_alloc` loop); described by `RetryOutcome` |
| `Accounting.BlockingRequest` | AllocationLimiter.go:31-50 | no contract of its own (the guard once, then `Retry`); described by `BlockingAloneIsOneAttempt` and `BlockingOversizedWhateverIdle`, and equal to what `RequestAllocation` computes |
| `Accounting.Step` | AllocationLimiter.go:31-58 | no contract of its own (one request attempt or one release, with the ledger of outstanding grants; `None` on a release that matches no outstanding grant); described by `StepKeepsBalance` |
| `Accounting.Replay` | AllocationLimiter.go:31-58 | no contract of its own (any interleaving of request attempts and releases of outstanding grants; `None` on a release that matches no outstanding grant); described by `ReplayKeepsBalance`, `PairedCallersStayWithinCapacity` and `OverReleaseExceedsCapacity` |
| `Accounting.Attempt` | AllocationLimiter.go:31-50 | one attempt never changes the capacity; a grant leaves the idle bytes strictly positive; an attempt that is not granted leaves the state unchanged (no partial grant) |
| `Accounting.OversizedWhateverIdle` | AllocationLimiter.go:33-35 | in every state, whatever its idle bytes, a size above the capacity is refused and the state is unchanged |
| `Accounting.GrantedIff` | AllocationLimiter.go:42-43 | a request is granted if and only if it fits the capacity and is strictly less than the idle bytes; a grant subtracts exactly the size |
| `Accounting.ExactIdleNotGranted` | AllocationLimiter.go:42 | a request for exactly the idle bytes is never granted |
| `Accounting.GrantThenReleaseRestores` | AllocationLimiter.go:42-56 | a granted request followed by a release of the same size restores the state |
| `Accounting.OverReleaseExceedsCapacity` | AllocationLimiter.go:53-58 | releases are unchecked: a positive release on a new limiter pushes the idle bytes above the capacity, and the release matches no outstanding grant |
| `Accounting.AttemptAllKeepsIdlePositive` | AllocationLimiter.go:42-43 | starting from positive idle bytes, any sequence of request attempts keeps the idle bytes positive and the capacity unchanged |
| `Accounting.RetryOutcome` | AllocationLimiter.go:37-50 | the retry loop grants if and only if some prefix of the interleaved changes makes `idle - size > 0`; it grants at the first such prefix, leaving exactly the start plus that prefix minus the size, which is positive; a still-waiting request has idle bytes equal to the start plus all changes; it never reports `OversizedRequest` and never changes the capacity |
| `Accounting.BlockingAloneIsOneAttempt` | AllocationLimiter.go:31-49 | with no other caller running while it waits, the blocking request is one attempt |
| `Accounting.BlockingOversizedWhateverIdle` | AllocationLimiter.go:33-35 | an oversized blocking request panics before any check or wait, and leaves the state unchanged |
| `Accounting.StepKeepsBalance` | AllocationLimiter.go:42-56 | one positive-size request attempt, or one release of an outstanding grant, keeps idle bytes plus outstanding grants equal to the capacity, with idle bytes positive |
| `Accounting.ReplayKeepsBalance` | AllocationLimiter.go:31-61 | the balance is preserved across any interleaving of positive-size request attempts and releases of outstanding grants |
| `Accounting.PairedCallersStayWithinCapacity` | AllocationLimiter.go:31-74 | from a new limiter with a positive capacity, callers that pair their calls and request positive sizes always see `0 < idle <= capacity`, and the bytes they hold stay strictly below the capacity |
| `Accounting.CapacityRequestNeverGranted` | AllocationLimiter.go:33-49 | for callers that pair their calls and request positive sizes, a request for the whole capacity passes the oversize guard and then waits (never granted), because the test is strict |

## Left out

- The `sync.Mutex` is not modelled. Each operation is a single atomic step in a sequential model.
- The notification channel, the goroutine that sends on it and the blocking receive are not modelled. Waiting is a `MustWait` outcome, and what other callers do between two checks is one element of the `interleaved` parameter. Lost wake-ups, liveness, fairness and starvation cannot be stated in this sequential model.
- `int64` overflow is not modelled: sizes and byte counts are unbounded integers.
- AllocationLimiter.AllocationLimiter.RequestAllocation: it cannot block forever. Instead it ends in `MustWait` once the given sequence of changes by other callers is used up.
