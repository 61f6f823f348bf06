/** The `Async` batch runner of asyncer.py: a queue of work items, each a callable, its
    argument tuple and an integer index, and a run that executes the queue and collects
    every successful return value under its item's index.

    The callables are an oracle `exec`, handed to `Run`: applying callable `f` to an
    argument tuple either returns a value or raises. The batch timeout is the flag
    `timedOut`, with `finished` naming the queue positions whose calls completed before
    the deadline fired. */
module Asyncer {
  import opened Seqs

  /** The identity of a callable passed to `append_coroutines`. */
  type FnId = nat

  datatype Option<T> = None | Some(value: T)

  datatype Result<T, E> = Ok(value: T) | Err(error: E)

  /** A queued call: callable, argument tuple, and the key its result is stored under. */
  datatype WorkItem<A> = WorkItem(f: FnId, args: A, index: nat)

  /** What one call does: return a value or raise an exception. */
  datatype Outcome<V> = Returned(value: V) | Raised

  /** What `run` returns: the values in ascending key order (`sort=True`) or the dict. */
  datatype RunOutput<V> = Listed(values: seq<V>) | Keyed(dict: map<nat, V>)

  /** How `clear_coroutines(indexes)` ends: every pop done, or a `list.pop` raised IndexError. */
  datatype ClearStatus = Cleared | IndexError

  /** The items `append_coroutines(f, args)` creates on a queue of length `base`. */
  function NewItems<A>(f: FnId, args: seq<A>, base: nat): seq<WorkItem<A>>
  {
    seq(|args|, n requires 0 <= n < |args| => WorkItem(f, args[n], base + n))
  }

  /** The indices of the queued items, in queue order. */
  function Indices<A>(q: seq<WorkItem<A>>): seq<nat>
  {
    seq(|q|, p requires 0 <= p < |q| => q[p].index)
  }

  /** The callables of the queued items, in queue order. */
  function Callables<A>(q: seq<WorkItem<A>>): seq<FnId>
  {
    seq(|q|, p requires 0 <= p < |q| => q[p].f)
  }

  /** The queue of a fresh or fully cleared runner after appends only: position p holds index p. */
  predicate Canonical<A>(q: seq<WorkItem<A>>)
  {
    forall p :: 0 <= p < |q| ==> q[p].index == p
  }

  /** Indices strictly increase along the queue (so no two items share one). */
  predicate IncreasingIndices<A>(q: seq<WorkItem<A>>)
  {
    forall i, j :: 0 <= i < j < |q| ==> q[i].index < q[j].index
  }

  /** The effect of one item on the result dict: a returned value is stored under the
      item's index, replacing what was there; a raised exception stores nothing. */
  function Record<A, V>(m: map<nat, V>, item: WorkItem<A>, exec: (FnId, A) -> Outcome<V>): map<nat, V>
  {
    match exec(item.f, item.args)
    case Returned(v) => m[item.index := v]
    case Raised => m
  }

  /** The result dict after the items of `items` have run one after the other from `base`. */
  function Collect<A, V>(base: map<nat, V>, items: seq<WorkItem<A>>, exec: (FnId, A) -> Outcome<V>): map<nat, V>
    decreases |items|
  {
    if items == [] then base
    else Record(Collect(base, items[..|items| - 1], exec), items[|items| - 1], exec)
  }

  /** Running one more item records it on top of what the earlier ones stored. */
  lemma CollectSnoc<A, V>(base: map<nat, V>, items: seq<WorkItem<A>>, item: WorkItem<A>, exec: (FnId, A) -> Outcome<V>)
    ensures Collect(base, items + [item], exec) == Record(Collect(base, items, exec), item, exec)
  {
    assert (items + [item])[..|items|] == items;
  }

  /** The dict's values listed by ascending key: `[m[k] for k in sorted(m.keys())]`. */
  function ValuesByKey<V>(m: map<nat, V>): (r: seq<V>)
    ensures |r| == |m|
    ensures forall i :: 0 <= i < |r| ==> SortedKeys(m.Keys)[i] in m && r[i] == m[SortedKeys(m.Keys)[i]]
  {
    var ks := SortedKeys(m.Keys);
    assert |m.Keys| == |m|;
    assert forall i :: 0 <= i < |ks| ==> ks[i] in m.Keys;
    seq(|ks|, i requires 0 <= i < |ks| => m[ks[i]])
  }

  /** The value `run` hands back once the batch has completed. */
  function Deliver<V>(m: map<nat, V>, sort: bool): RunOutput<V>
  {
    if sort then Listed(ValuesByKey(m)) else Keyed(m)
  }

  /** The queue after popping the positions of `order` one at a time, and how it ended.
      A position outside `-|s| .. |s|-1` makes `list.pop` raise; the pops before it stay done. */
  function PopEach<T>(s: seq<T>, order: seq<int>): (seq<T>, ClearStatus)
    decreases |order|
  {
    if order == [] then (s, Cleared)
    else if order[0] < -|s| || order[0] >= |s| then (s, IndexError)
    else PopEach(Pop(s, order[0]), order[1..])
  }

  /** One `list.pop` keeps the remaining indices increasing. */
  lemma PopKeepsIncreasing<A>(q: seq<WorkItem<A>>, i: int)
    requires -|q| <= i < |q|
    requires IncreasingIndices(q)
    ensures IncreasingIndices(Pop(q, i))
  {
    var r := Pop(q, i);
    var j := if i < 0 then |q| + i else i;
    forall x, y | 0 <= x < y < |r|
      ensures r[x].index < r[y].index
    {
      var x' := if x < j then x else x + 1;
      var y' := if y < j then y else y + 1;
      assert r[x] == q[x'] by {
        if x < j { assert r[..j][x] == q[..j][x]; } else { assert r[j..][x - j] == q[j + 1..][x - j]; }
      }
      assert r[y] == q[y'] by {
        if y < j { assert r[..j][y] == q[..j][y]; } else { assert r[j..][y - j] == q[j + 1..][y - j]; }
      }
    }
  }

  /** `clear_coroutines(indexes)` with any positions, negative, repeated or out of range
      included, keeps the indices of the queue increasing. */
  lemma {:induction false} PopEachKeepsIncreasing<A>(q: seq<WorkItem<A>>, order: seq<int>)
    requires IncreasingIndices(q)
    ensures IncreasingIndices(PopEach(q, order).0)
    decreases |order|
  {
    if order != [] && -|q| <= order[0] < |q| {
      PopKeepsIncreasing(q, order[0]);
      PopEachKeepsIncreasing(Pop(q, order[0]), order[1..]);
    }
  }

  class Async<A, V, E> {
    /** The exception raised when the batch times out. */
    const error: E
    /** Seconds before the batch times out; `None` waits forever. */
    const timeout: Option<real>

    var coroutines: seq<WorkItem<A>>
    var output: map<nat, V>

    constructor (error: E, timeout: Option<real>)
      ensures this.error == error && this.timeout == timeout
      ensures coroutines == [] && output == map[]
      ensures Canonical(coroutines)
    {
      this.error := error;
      this.timeout := timeout;
      coroutines := [];
      output := map[];
    }

    /** `number_of_coroutines`: the length of the queue. */
    method Count() returns (n: nat)
      ensures n == |coroutines|
    {
      n := |coroutines|;
    }

    /** `append_coroutines(f, args)`: one item per argument tuple, in order, numbered on
        from the current length of the queue. */
    method Append(f: FnId, args: seq<A>)
      modifies this`coroutines
      ensures |coroutines| == |old(coroutines)| + |args|
      ensures coroutines[..|old(coroutines)|] == old(coroutines)
      ensures forall n :: 0 <= n < |args| ==>
        coroutines[|old(coroutines)| + n] == WorkItem(f, args[n], |old(coroutines)| + n)
      ensures coroutines == old(coroutines) + NewItems(f, args, |old(coroutines)|)
      ensures output == old(output)
      ensures Canonical(old(coroutines)) ==> Canonical(coroutines)
    {
      var current := Count();
      coroutines := coroutines + NewItems(f, args, current);
    }

    /** `clear_coroutines()`: the queue becomes empty. */
    method ClearAll()
      modifies this`coroutines
      ensures coroutines == []
      ensures Canonical(coroutines)
    {
      coroutines := [];
    }

    /** `clear_coroutines(indexes)`: pops the given list positions, highest first. */
    method ClearPositions(indexes: seq<int>) returns (status: ClearStatus)
      modifies this`coroutines
      ensures (coroutines, status) == PopEach(old(coroutines), SortDesc(indexes))
      ensures IncreasingIndices(old(coroutines)) ==> IncreasingIndices(coroutines)
    {
      var order := SortDesc(indexes);
      if IncreasingIndices(coroutines) {
        PopEachKeepsIncreasing(coroutines, order);
      }
      var k := 0;
      while k < |order|
        invariant 0 <= k <= |order|
        invariant PopEach(coroutines, order[k..]) == PopEach(old(coroutines), order)
      {
        var i := order[k];
        if i < -|coroutines| || i >= |coroutines| {
          return IndexError;
        }
        coroutines := Pop(coroutines, i);
        k := k + 1;
      }
      status := Cleared;
    }

    /** `clear_coroutines(indexes)`: with no argument the whole queue, otherwise the given positions. */
    method ClearCoroutines(indexes: Option<seq<int>>) returns (status: ClearStatus)
      modifies this`coroutines
      ensures indexes.None? ==> coroutines == [] && status == Cleared
      ensures indexes.Some? ==> (coroutines, status) == PopEach(old(coroutines), SortDesc(indexes.value))
      ensures IncreasingIndices(old(coroutines)) ==> IncreasingIndices(coroutines)
    {
      if indexes.None? {
        ClearAll();
        status := Cleared;
      } else {
        status := ClearPositions(indexes.value);
      }
    }

    /** `__de_sync`: runs one item and stores what it returned under its index. */
    method DeSync(item: WorkItem<A>, exec: (FnId, A) -> Outcome<V>)
      modifies this`output
      ensures output == Record(old(output), item, exec)
    {
      var outcome := exec(item.f, item.args);
      if outcome.Returned? {
        output := output[item.index := outcome.value];
      }
    }

    /** `__main`: nothing to do for an empty queue; otherwise every item runs, unless the
        deadline fires, in which case only the items at the positions in `finished` got to
        store their results. Returns whether the batch completed. */
    method RunBatch(exec: (FnId, A) -> Outcome<V>, timedOut: bool, finished: set<int>) returns (completed: bool)
      modifies this`output
      ensures var cut := coroutines != [] && timeout.Some? && timedOut;
        && completed == !cut
        && output == Collect(old(output), if cut then Select(coroutines, finished, true) else coroutines, exec)
    {
      if coroutines == [] {
        return true;
      }
      var cut := timeout.Some? && timedOut;
      var i := 0;
      while i < |coroutines|
        invariant 0 <= i <= |coroutines|
        invariant output == Collect(old(output), if cut then Select(coroutines[..i], finished, true) else coroutines[..i], exec)
      {
        ghost var before := if cut then Select(coroutines[..i], finished, true) else coroutines[..i];
        assert coroutines[..i + 1] == coroutines[..i] + [coroutines[i]];
        SelectSnoc(coroutines[..i], coroutines[i], finished, true);
        ghost var after := if cut then Select(coroutines[..i + 1], finished, true) else coroutines[..i + 1];
        if !cut || i in finished {
          assert after == before + [coroutines[i]];
          DeSync(coroutines[i], exec);
          CollectSnoc(old(output), before, coroutines[i], exec);
          assert output == Collect(old(output), after, exec);
        } else {
          assert after == before;
        }
        i := i + 1;
      }
      assert coroutines[..i] == coroutines;
      completed := !cut;
    }

    /** `run(sort=True)`: resets the result dict, runs the batch, and on completion empties the
        queue and returns the values by ascending key or the dict itself. On a timeout it
        raises `error` before the queue is cleared. */
    method Run(exec: (FnId, A) -> Outcome<V>, timedOut: bool, finished: set<int>, sort: bool := true)
      returns (r: Result<RunOutput<V>, E>)
      modifies this`coroutines, this`output
      ensures var q := old(coroutines);
        var cut := q != [] && timeout.Some? && timedOut;
        && output == Collect(map[], if cut then Select(q, finished, true) else q, exec)
        && (cut ==> r == Err(error) && coroutines == q)
        && (!cut ==> r == Ok(Deliver(output, sort)) && coroutines == [])
      ensures old(coroutines) == [] ==> r == Ok(if sort then Listed([]) else Keyed(map[]))
    {
      output := map[];
      var completed := RunBatch(exec, timedOut, finished);
      if !completed {
        return Err(error);
      }
      ClearAll();
      r := Ok(Deliver(output, sort));
    }
  }
}
