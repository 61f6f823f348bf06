# A verified model of the `Async` batch runner (asyncer.py)

`Async` collects blocking calls in a queue and runs them as one batch. Each queued
work item holds a callable, an argument tuple and an integer index. `run` executes the
whole batch and returns every successful result stored under its item's index. The
result is either the dict itself or its values listed by ascending key.

This model is a Dafny class `Asyncer.Async` with the two fields the source updates in
place: `coroutines` (a `seq` of `WorkItem`s) and `output` (a `map<nat, V>`). The
constructor's `error` and `timeout` are constants of the class. Every public and private
method of the Python class is a method here:

- `Count` is `number_of_coroutines`.
- `Append` is `append_coroutines` and `__append_coroutines`.
- `ClearCoroutines`, `ClearAll` and `ClearPositions` are `clear_coroutines` (with and without an argument).
- `DeSync` is `__de_sync`.
- `RunBatch` is `__main` and `__intermediary_main`.
- `Run` is `run`.

The callables are not executed. Each one is an oracle `exec: (FnId, A) -> Outcome<V>` handed
to `Run`: applying callable `f` to an argument tuple either returns a value or raises. The
wall-clock batch timeout is a boolean `timedOut`. It takes effect only when a timeout was
configured and the queue is not empty. The set `finished` names the queue positions whose
calls completed before the deadline.

Every method is specified against pure functions:

- `NewItems`: the items an append creates.
- `PopEach`: the effect of popping a list of positions one after another, with Python's `list.pop` rules.
- `SortDesc`: `reversed(sorted(...))`.
- `Record` and `Collect`: the result dict after items have run.
- `SortedKeys` and `ValuesByKey`: the sorted-list comprehension of `run`.
- `Deliver`: the value `run` returns.

The module `Properties` proves the guarantees the code gives in terms of those functions.

Where the code and its docstrings disagree, the model follows the code:

- `clear_coroutines(indexes)` takes list positions, not the items' stored indices.
  Python's `list.pop` rules apply: a negative position counts from the end, and an
  out-of-range position raises `IndexError` after the pops before it are already done.
- Indices come from the queue's current length. After appends and full clears alone,
  position p holds index p (`AppendKeepsCanonical`), so the indices are unique and
  increasing. A partial clear keeps them increasing, whatever positions it is given, negative,
  repeated or out of range included (`PopEachKeepsIncreasing`, and the contracts of
  `ClearPositions` and `ClearCoroutines`). An append after a partial clear numbers on from
  the shorter length, so when the removed positions were not a tail of the queue it can
  reuse an index still held by a queued item. Two items then write under the same key,
  and the one whose call finishes last wins; in the model's sequential run that is the
  later item (`IndexReuseOverwrites`).
- The docstring of `clear_coroutines` calls its argument a tuple of indexes to clear, but
  the positions are sorted as plain integers and popped one after another from the
  shrinking list. Distinct non-negative in-range positions always remove exactly the
  items they name (`ClearPositionsRemovesExactly`). A negative position counts from the
  end of the already shortened list, so it names a different item once an earlier pop
  has removed its target or an item after it: `(-1, -2)` on `[a, b, c]` leaves `[b]`
  (`NegativePositionsShift`), while `(-1,)` or `(0, -1)` still remove what they name. A non-negative and
  a negative position for the same item pop two items: `(2, -1)` on `[a, b, c]` leaves
  `[a]` (`AliasedPositionsPopTwice`).
- The class docstring's example prints a dict, but `run()` defaults to `sort=True` and
  returns a list. The printed dict also has key 4 twice, no key 8, and the cos values
  under keys 4 to 7. The model gives the indices the code assigns: sin at 0-3, sleep at
  4, cos at 5-8 (`DocstringExample`).
- A call that raises stores nothing. `asyncio.wait` does not re-raise, so that index
  is simply missing from the result, and the sorted list is shorter rather than padded.
- On a timeout, `run` raises before line 80. The queue is therefore not cleared. The
  result dict keeps the entries that finished before the deadline.

## Model

| member | source | states |
|---|---|---|
| `Asyncer.Async.constructor` | asyncer.py:43-57 | The queue and the result dict start empty; the configured error and timeout are kept. |
| `Asyncer.Async.Count` | asyncer.py:87-93 | Returns the length of the queue. |
| `Asyncer.Async.Append` | asyncer.py:107-115 | The queue grows by exactly one item per argument tuple. Old items are unchanged. New item n carries `f`, tuple n and index `old length + n`. The result dict is untouched. A queue whose positions equal its indices stays so. |
| `Asyncer.Async.ClearAll` | asyncer.py:101-103 | The queue becomes empty. |
| `Asyncer.Async.ClearPositions` | asyncer.py:104-105 | Pops the given positions highest first, with `list.pop` semantics. The new queue and the status are those of `PopEach` on the positions sorted in descending order. Increasing indices stay increasing. |
| `Asyncer.Async.ClearCoroutines` | asyncer.py:95-105 | With no argument the queue is emptied; with positions it behaves as `ClearPositions`. Either way increasing indices stay increasing. |
| `Asyncer.Async.DeSync` | asyncer.py:135-146 | A returned value is stored under the item's index and replaces any earlier value. A raised call stores nothing. |
| `Asyncer.Async.RunBatch` | asyncer.py:117-133 | An empty queue completes without running anything. On a timeout, only the items at the finished positions have written, and completion is false. Otherwise every item has run in queue order. |
| `Asyncer.Async.Run` | asyncer.py:68-85 | `sort` defaults to true. `output` is rebuilt from an empty dict, so no entry survives a previous run. On a timeout, the configured error is returned and the queue is unchanged. Otherwise the queue is emptied and the result is the sorted list or the dict. An empty queue gives `[]` or `{}`. |
| `Asyncer.NewItems` | asyncer.py:114-115 | The items one append creates; specification of `Append`, whose contract and `AppendKeepsCanonical` state its indices. |
| `Asyncer.PopEach` | asyncer.py:105 | The pops of `clear_coroutines(indexes)` one after another, stopping at the first IndexError; specification of `ClearPositions`, with properties in `PopDescending`, `ClearPositionsRemovesExactly`, `ClearPositionsTooHigh` and `ClearPositionsOutOfRange`. |
| `Asyncer.Record` | asyncer.py:144 | The effect of one item on the result dict; specification of `DeSync`. |
| `Asyncer.Collect` | asyncer.py:133 | The result dict after a run of items; specification of `RunBatch`, with properties in `CollectKeys` and `CollectLastWriter`. |
| `Asyncer.Deliver` | asyncer.py:82-85 | The value of a completed `run`: the sorted list or the dict; specification of `Run`'s result. |
| `Asyncer.ValuesByKey` | asyncer.py:83 | One value per key of the dict; position i holds the value of the i-th smallest key. |
| `Seqs.SortedKeys` | asyncer.py:83 | `sorted(keys)`: strictly ascending, exactly the keys, one entry per key. |
| `Seqs.SortDesc` | asyncer.py:105 | `reversed(sorted(indexes))`: descending and a permutation of the given positions. |
| `Seqs.Pop` | asyncer.py:105 | `list.pop(i)` for an in-range `i`: the list minus the element at `i`, where a negative `i` counts from the end. |
| `Properties.AppendKeepsCanonical` | asyncer.py:114-115 | After appends only, position p holds index p, and the new batch takes the next indices in argument order. |
| `Properties.CanonicalIsIncreasing` | asyncer.py:114-115 | Such a queue has strictly increasing, hence unique, indices. |
| `Asyncer.PopKeepsIncreasing` | asyncer.py:105 | One `list.pop`, at a non-negative or a negative position, keeps the remaining indices increasing. |
| `Asyncer.PopEachKeepsIncreasing` | asyncer.py:105 | Any sequence of pops, with negative, repeated and out-of-range positions included, keeps the indices increasing. |
| `Properties.SelectKeepsIncreasing` | asyncer.py:105 | Removing positions keeps the rest in order, so increasing indices stay increasing. |
| `Properties.IndexReuseOverwrites` | asyncer.py:114 | Clear position 0 of a fresh two-item queue and append one item: both items carry index 1, and the run keeps only the later value. |
| `Properties.PopDescending` | asyncer.py:105 | Popping strictly descending in-range positions removes exactly those items; the length drops by their number. |
| `Properties.ClearPositionsRemovesExactly` | asyncer.py:105 | Non-negative in-range positions, none given twice, remove exactly the items at those positions. The rest keep their order, the count drops by the number of positions, and no error is raised. |
| `Properties.NegativePositionsShift` | asyncer.py:105 | Clearing `(-1, -2)` from `[a, b, c]` leaves `[b]`: the second pop counts from the end of the already shortened list. |
| `Properties.AliasedPositionsPopTwice` | asyncer.py:105 | Clearing `(2, -1)` from `[a, b, c]`, two names of the same item, pops two items and leaves `[a]`. |
| `Properties.ClearPositionsTooHigh` | asyncer.py:105 | A position at or beyond the end raises `IndexError` on the first pop, so nothing is removed. |
| `Properties.ClearPositionsOutOfRange` | asyncer.py:105 | Any position outside `-len .. len-1` makes the clear raise `IndexError`. |
| `Properties.CollectKeys` | asyncer.py:144 | A key is in the result exactly when some queued item with that index returned (or the key was already there). |
| `Properties.CollectLastWriter` | asyncer.py:144 | The value under an index is that of the last item with that index whose call returned. |
| `Properties.RunResultAtIndex` | asyncer.py:144 | With increasing indices, every item that returned has its own value under its index. |
| `Properties.KeyedRunAllReturned` | asyncer.py:77-85 | Fresh queue, all calls returned: the dict has exactly keys `0 .. N-1`, and key p holds the p-th item's value. |
| `Properties.ValuesByKeyExtend` | asyncer.py:83 | Storing a key above all present keys appends its value to the sorted list. |
| `Properties.SortedRunInQueueOrder` | asyncer.py:82-83 | With increasing indices, the sorted list holds the values of the calls that returned, in submission order, without gaps. |
| `Properties.SuccessesAllReturned` | asyncer.py:82-83 | If every call returned, there is one value per item, in order. |
| `Properties.SortedRunAllReturned` | asyncer.py:82-83 | With increasing indices and all calls returned, the sorted list holds N values, and position p holds the p-th item's result. |
| `Properties.SquareQueue` | asyncer.py:114-115 | Appending square with the tuples 2, 3 and 4 to an empty queue gives the indices 0, 1 and 2. |
| `Properties.SquareKeyed` | asyncer.py:84-85 | Running that queue with `sort=False` gives `{0: 4, 1: 9, 2: 16}`. |
| `Properties.SquareSorted` | asyncer.py:82-83 | Running that queue with `sort=True` gives `[4, 9, 16]`. |
| `Properties.DocstringExample` | asyncer.py:19-33 | Appending sin with four tuples, sleep with one and cos with four gives the callables sin at positions 0-3, sleep at 4 and cos at 5-8, with the indices 0 to 8. |
| `Properties.TimeoutExample` | asyncer.py:78-80 | A timed-out run returns the configured error. Both items stay queued, and the dict keeps only the result that finished in time. |

## Left out

- The asyncio event loop, `nest_asyncio` and `run_in_executor`: the model runs the items one after another in queue order. Python runs them concurrently, so when two items share an index, the one that finishes last wins. The model's "last position wins" is one of the possible outcomes.
- Executor threads keep running after a timeout and may still write to `output` later. The model stops at the deadline.
- The semaphore (constructor argument `semaphore`, asyncer.py:51 and 123). With a positive capacity it wraps the single batch of one blocking `run`, so it has no observable effect in a sequential model. With capacity 0 the acquire at asyncer.py:123 never succeeds and sits outside `wait_for`, so `run` on a non-empty queue blocks forever even when a timeout is set; the model does not capture that hang. A negative capacity raising `ValueError` is not modelled either.
- Wall-clock time: the timeout is only the `timedOut` flag, plus the set of positions that finished before the deadline.
- `coroutine.close()` on cleared items and the fact that a coroutine can be awaited only once. After a timed-out run, the queue still holds the spent coroutines, and a later `run` of them would fail in Python. The model treats queued items as plain data that can run again.
- `run(sort=False)` returns the very dict object held in `self.output`, so a caller who mutates it mutates the runner's state. The model returns the map as a value.
- The dict of `run(sort=False)` iterates in the order the calls completed, as the docstring's printed output shows. A Dafny `map` has no order, so the model does not capture that iteration order; only the keys and their values.
- Callables are identified by a number (`FnId`) and arguments by an abstract type `A`. An arity mismatch or any other exception raised by a call, including `asyncio.TimeoutError` turned into `error` at asyncer.py:145-146, is the oracle's `Raised` outcome.
- Non-integer positions given to `clear_coroutines` are excluded by the types of the model. A float position is sorted with the rest and then makes `list.pop` raise `TypeError` when it is reached, after the pops before it.
- `PopEach`: positions outside the 64-bit range of `Py_ssize_t` make CPython's `list.pop` raise `OverflowError` rather than `IndexError`. The queue is left the same either way; the model reports both as `IndexError`.
- The Python version: the model follows asyncio up to Python 3.10, where `asyncio.wait` at asyncer.py:133 accepts coroutine objects. From Python 3.11 on, `asyncio.wait` rejects them with `TypeError`, so every `run` on a non-empty queue raises and leaves the queue as it was; the model does not capture that.
- The `__main__` test block of asyncer.py (printing, numpy, network requests).
- timer.py (timing and profiling decorators, a progress bar driven by clock readings and floats), zenserper.py (HTTP client), sheeter.py, basics.py and googler.py (spreadsheet, DataFrame and authentication wrappers).
- Properties.ClearPositionsOutOfRange: states only that `IndexError` is raised, not which pops happened before it. That part is fixed by `PopEach` and the `ClearPositions` contract.
