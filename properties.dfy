/** Properties of the queue and of the result assembly of `Async`, stated over the
    functions that the methods of `Asyncer.Async` are specified by. */
module Properties {
  import opened Seqs
  import opened Asyncer

  // ---------------------------------------------------------------------------
  // Index assignment by append_coroutines
  // ---------------------------------------------------------------------------

  /** Appending to a queue whose positions are its indices keeps it so: the new batch
      takes the indices `|q| .. |q|+|args|-1`, in argument order. */
  lemma {:induction false} AppendKeepsCanonical<A>(q: seq<WorkItem<A>>, f: FnId, args: seq<A>)
    requires Canonical(q)
    ensures Canonical(q + NewItems(f, args, |q|))
    ensures forall n :: 0 <= n < |args| ==> (q + NewItems(f, args, |q|))[|q| + n] == WorkItem(f, args[n], |q| + n)
  {
    var r := q + NewItems(f, args, |q|);
    forall p | 0 <= p < |r|
      ensures r[p].index == p
    {
      if p >= |q| {
        assert r[p] == NewItems(f, args, |q|)[p - |q|];
      }
    }
  }

  /** Such a queue has strictly increasing, hence unique, indices. */
  lemma CanonicalIsIncreasing<A>(q: seq<WorkItem<A>>)
    requires Canonical(q)
    ensures IncreasingIndices(q)
  {
  }

  /** A partial clear keeps the order of the remaining items, so increasing indices stay increasing. */
  lemma {:induction false} SelectKeepsIncreasing<A>(q: seq<WorkItem<A>>, P: set<int>, keep: bool)
    requires IncreasingIndices(q)
    ensures IncreasingIndices(Select(q, P, keep))
    decreases |q|
  {
    if q != [] {
      var init := q[..|q| - 1];
      var last := q[|q| - 1];
      var s := Select(init, P, keep);
      SelectKeepsIncreasing(init, P, keep);
      SelectSubset(init, P, keep);
      forall x | x in s
        ensures x.index < last.index
      {
        var p :| 0 <= p < |init| && init[p] == x;
      }
      var r := Select(q, P, keep);
      forall i, j | 0 <= i < j < |r|
        ensures r[i].index < r[j].index
      {
        if j >= |s| {
          assert r[i] == s[i] && s[i] in s;
        } else {
          assert r[i] == s[i] && r[j] == s[j];
        }
      }
    }
  }

  /** The index reuse the code allows: clear position 0 of a fresh two-item queue, append
      one more item, and both items carry index 1. Running them keeps only the later
      item's value; the earlier item's result is overwritten. */
  lemma IndexReuseOverwrites<A, V>(f: FnId, a: A, b: A, c: A, exec: (FnId, A) -> Outcome<V>)
    requires exec(f, b).Returned? && exec(f, c).Returned?
    ensures var q := NewItems(f, [a, b], 0);
      var cleared := PopEach(q, SortDesc([0]));
      var q2 := cleared.0 + NewItems(f, [c], |cleared.0|);
      && Canonical(q)
      && cleared == ([WorkItem(f, b, 1)], Cleared)
      && q2 == [WorkItem(f, b, 1), WorkItem(f, c, 1)]
      && !IncreasingIndices(q2)
      && Collect(map[], q2, exec) == map[1 := exec(f, c).value]
  {
    var q := NewItems(f, [a, b], 0);
    assert q == [WorkItem(f, a, 0), WorkItem(f, b, 1)];
    assert SortDesc([0]) == [0] by {
      assert [0][1..] == [];
    }
    assert Pop(q, 0) == [WorkItem(f, b, 1)];
    assert PopEach(q, [0]) == PopEach([WorkItem(f, b, 1)], []);
    var q1 := [WorkItem(f, b, 1)];
    assert NewItems(f, [c], |q1|) == [WorkItem(f, c, 1)];
    var q2 := [WorkItem(f, b, 1), WorkItem(f, c, 1)];
    assert q2[..1] == q1;
    assert q1[..0] == [];
    assert Collect(map[], q1, exec) == map[1 := exec(f, b).value];
    assert Collect(map[], q2, exec) == map[1 := exec(f, b).value][1 := exec(f, c).value];
    assert map[1 := exec(f, b).value][1 := exec(f, c).value] == map[1 := exec(f, c).value];
  }

  // ---------------------------------------------------------------------------
  // clear_coroutines(indexes)
  // ---------------------------------------------------------------------------

  /** A value at two positions of a sequence occurs at least twice in its multiset. */
  lemma TwoCopies(xs: seq<int>, i: nat, j: nat)
    requires i < j < |xs|
    ensures xs[i] == xs[j] ==> multiset(xs)[xs[i]] >= 2
  {
    assert xs == xs[..j] + xs[j..];
    assert xs[i] in xs[..j];
    assert xs[j] in xs[j..];
    assert multiset(xs)[xs[i]] == multiset(xs[..j])[xs[i]] + multiset(xs[j..])[xs[i]];
  }

  /** Popping strictly descending in-range positions one at a time removes exactly the
      items at those positions, the rest keeping their order. */
  lemma {:induction false} PopDescending<T>(s: seq<T>, order: seq<int>)
    requires forall i, j :: 0 <= i < j < |order| ==> order[i] > order[j]
    requires forall i :: 0 <= i < |order| ==> 0 <= order[i] < |s|
    ensures PopEach(s, order) == (Select(s, set x | x in order, false), Cleared)
    ensures |PopEach(s, order).0| == |s| - |order|
    decreases |order|
  {
    if order == [] {
      assert (set x | x in order) == {};
      SelectEmptySet(s);
    } else {
      var p := order[0];
      var rest := order[1..];
      var t := Pop(s, p);
      var R := set x | x in rest;
      DescendingTail(order, |s|);
      PopDescending(t, rest);
      forall x | x in R
        ensures x < p
      {
        assert x in rest;
      }
      SelectPopHighest(s, R, p);
      assert PopEach(s, order) == PopEach(t, rest);
    }
  }

  /** The tail of a strictly descending list of in-range positions: still strictly
      descending, all below the head, and together with the head the same set. */
  lemma DescendingTail(order: seq<int>, n: int)
    requires order != []
    requires forall i, j :: 0 <= i < j < |order| ==> order[i] > order[j]
    requires forall i :: 0 <= i < |order| ==> 0 <= order[i] < n
    ensures forall i, j :: 0 <= i < j < |order| - 1 ==> order[1..][i] > order[1..][j]
    ensures forall i :: 0 <= i < |order| - 1 ==> 0 <= order[1..][i] < order[0] <= n - 1
    ensures forall x :: x in order[1..] ==> x < order[0]
    ensures (set x | x in order) == (set x | x in order[1..]) + {order[0]}
  {
    var rest := order[1..];
    forall i, j | 0 <= i < j < |rest|
      ensures rest[i] > rest[j]
    {
      assert rest[i] == order[i + 1] && rest[j] == order[j + 1];
    }
    forall i | 0 <= i < |rest|
      ensures 0 <= rest[i] < order[0]
    {
      assert rest[i] == order[i + 1];
    }
    assert order == [order[0]] + rest;
  }

  /** Removing no position keeps every item. */
  lemma {:induction false} SelectEmptySet<T>(s: seq<T>)
    ensures Select(s, {}, false) == s
    decreases |s|
  {
    if s != [] {
      SelectEmptySet(s[..|s| - 1]);
      assert s[..|s| - 1] + [s[|s| - 1]] == s;
    }
  }

  /** `clear_coroutines(indexes)` with non-negative in-range positions, none given twice, removes exactly
      the items at those positions, keeps the others in order and lowers the count by |indexes|. */
  lemma ClearPositionsRemovesExactly<T>(s: seq<T>, indexes: seq<int>)
    requires forall i :: i in indexes ==> 0 <= i < |s|
    requires forall x :: multiset(indexes)[x] <= 1
    ensures PopEach(s, SortDesc(indexes)) == (Select(s, set i | i in indexes, false), Cleared)
    ensures |PopEach(s, SortDesc(indexes)).0| == |s| - |indexes|
  {
    var order := SortDesc(indexes);
    assert |order| == |indexes| by {
      assert |multiset(order)| == |multiset(indexes)|;
    }
    forall i, j | 0 <= i < j < |order|
      ensures order[i] > order[j]
    {
      TwoCopies(order, i, j);
    }
    forall i | 0 <= i < |order|
      ensures 0 <= order[i] < |s|
    {
      assert order[i] in multiset(order);
      assert order[i] in multiset(indexes);
      assert order[i] in indexes;
    }
    PopDescending(s, order);
    assert (set x | x in order) == (set i | i in indexes) by {
      forall x
        ensures x in order <==> x in indexes
      {
        assert x in order <==> x in multiset(order);
        assert x in indexes <==> x in multiset(indexes);
      }
    }
  }

  /** Negative positions are sorted as plain integers and popped from an already shortened
      queue, so they do not name the items they would name on the original one:
      clearing `(-1, -2)` from `[a, b, c]` leaves `[b]`, where `[a]` was meant. */
  lemma NegativePositionsShift<T>(a: T, b: T, c: T)
    ensures PopEach([a, b, c], SortDesc([-1, -2])) == ([b], Cleared)
  {
    assert SortDesc([-2]) == [-2];
    assert SortDesc([-1, -2]) == [-1, -2];
    assert Pop([a, b, c], -1) == [a, b];
    assert Pop([a, b], -2) == [b];
    assert PopEach([b], []) == ([b], Cleared);
  }

  /** A non-negative and a negative position naming the same item pop two items:
      clearing `(2, -1)` from `[a, b, c]` leaves `[a]`. */
  lemma AliasedPositionsPopTwice<T>(a: T, b: T, c: T)
    ensures PopEach([a, b, c], SortDesc([2, -1])) == ([a], Cleared)
  {
    assert SortDesc([-1]) == [-1];
    assert SortDesc([2, -1]) == [2, -1];
    assert Pop([a, b, c], 2) == [a, b];
    assert Pop([a, b], -1) == [a];
    assert PopEach([a], []) == ([a], Cleared);
  }

  /** A position at or beyond the end makes the first pop, that of the highest position,
      raise IndexError: nothing is removed. */
  lemma ClearPositionsTooHigh<T>(s: seq<T>, indexes: seq<int>, i: int)
    requires i in indexes && i >= |s|
    ensures PopEach(s, SortDesc(indexes)) == (s, IndexError)
  {
    var order := SortDesc(indexes);
    assert i in multiset(indexes);
    assert i in order;
    var k :| 0 <= k < |order| && order[k] == i;
    assert order[0] >= order[k];
  }

  /** Any position outside `-|s| .. |s|-1` makes some pop raise IndexError: the queue only
      gets shorter, so that position stays out of range until it is reached. */
  lemma {:induction false} PopEachOutOfRange<T>(s: seq<T>, order: seq<int>, x: int)
    requires x in order && (x < -|s| || x >= |s|)
    ensures PopEach(s, order).1 == IndexError
    decreases |order|
  {
    if !(order[0] < -|s| || order[0] >= |s|) {
      assert x in order[1..] by {
        assert order == [order[0]] + order[1..];
      }
      PopEachOutOfRange(Pop(s, order[0]), order[1..], x);
    }
  }

  /** `clear_coroutines(indexes)` raises IndexError whenever a position is out of range. */
  lemma ClearPositionsOutOfRange<T>(s: seq<T>, indexes: seq<int>, i: int)
    requires i in indexes && (i < -|s| || i >= |s|)
    ensures PopEach(s, SortDesc(indexes)).1 == IndexError
  {
    assert i in multiset(indexes);
    assert i in SortDesc(indexes);
    PopEachOutOfRange(s, SortDesc(indexes), i);
  }

  // ---------------------------------------------------------------------------
  // The result dict of run
  // ---------------------------------------------------------------------------

  /** The keys of the dict: those of `base` and the index of every item whose call returned. */
  lemma {:induction false} CollectKeys<A, V>(base: map<nat, V>, items: seq<WorkItem<A>>, exec: (FnId, A) -> Outcome<V>, k: nat)
    ensures k in Collect(base, items, exec) <==>
      k in base || exists p :: 0 <= p < |items| && items[p].index == k && exec(items[p].f, items[p].args).Returned?
    decreases |items|
  {
    if items != [] {
      var init := items[..|items| - 1];
      CollectKeys(base, init, exec, k);
      if exists p :: 0 <= p < |items| && items[p].index == k && exec(items[p].f, items[p].args).Returned? {
        var p :| 0 <= p < |items| && items[p].index == k && exec(items[p].f, items[p].args).Returned?;
        if p < |init| {
          assert init[p] == items[p];
        }
      }
      if exists p :: 0 <= p < |init| && init[p].index == k && exec(init[p].f, init[p].args).Returned? {
        var p :| 0 <= p < |init| && init[p].index == k && exec(init[p].f, init[p].args).Returned?;
        assert items[p] == init[p];
      }
    }
  }

  /** The value under an index is that of the last item with this index whose call returned:
      a later write to the same key replaces an earlier one. */
  lemma {:induction false} CollectLastWriter<A, V>(base: map<nat, V>, items: seq<WorkItem<A>>, exec: (FnId, A) -> Outcome<V>, p: nat)
    requires p < |items| && exec(items[p].f, items[p].args).Returned?
    requires forall q :: p < q < |items| && items[q].index == items[p].index ==> exec(items[q].f, items[q].args).Raised?
    ensures items[p].index in Collect(base, items, exec)
    ensures Collect(base, items, exec)[items[p].index] == exec(items[p].f, items[p].args).value
    decreases |items|
  {
    var init := items[..|items| - 1];
    if p < |init| {
      assert init[p] == items[p];
      forall q | p < q < |init| && init[q].index == init[p].index
        ensures exec(init[q].f, init[q].args).Raised?
      {
        assert init[q] == items[q];
      }
      CollectLastWriter(base, init, exec, p);
    }
  }

  /** With increasing indices, each item whose call returned has its own value in the dict. */
  lemma RunResultAtIndex<A, V>(q: seq<WorkItem<A>>, exec: (FnId, A) -> Outcome<V>, p: nat)
    requires IncreasingIndices(q)
    requires p < |q| && exec(q[p].f, q[p].args).Returned?
    ensures q[p].index in Collect(map[], q, exec)
    ensures Collect(map[], q, exec)[q[p].index] == exec(q[p].f, q[p].args).value
  {
    CollectLastWriter(map[], q, exec, p);
  }

  /** The dict of a completed run on a fresh queue whose calls all returned:
      exactly the keys `0 .. |q|-1`, key p holding the result of the p-th item. */
  lemma KeyedRunAllReturned<A, V>(q: seq<WorkItem<A>>, exec: (FnId, A) -> Outcome<V>)
    requires Canonical(q)
    requires forall p :: 0 <= p < |q| ==> exec(q[p].f, q[p].args).Returned?
    ensures var m := Collect(map[], q, exec);
      && (forall k: nat :: k in m <==> k < |q|)
      && (forall p :: 0 <= p < |q| ==> m[p] == exec(q[p].f, q[p].args).value)
  {
    var m := Collect(map[], q, exec);
    forall k: nat
      ensures k in m <==> k < |q|
    {
      CollectKeys(map[], q, exec, k);
      if k < |q| {
        assert q[k].index == k;
      }
      if k in m {
        var p :| 0 <= p < |q| && q[p].index == k && exec(q[p].f, q[p].args).Returned?;
        assert q[p].index == p;
      }
    }
    forall p | 0 <= p < |q|
      ensures m[p] == exec(q[p].f, q[p].args).value
    {
      RunResultAtIndex(q, exec, p);
    }
  }

  // ---------------------------------------------------------------------------
  // The sorted list of run(sort=True)
  // ---------------------------------------------------------------------------

  /** The values of the calls that returned, in queue order. */
  function Successes<A, V>(q: seq<WorkItem<A>>, exec: (FnId, A) -> Outcome<V>): seq<V>
    decreases |q|
  {
    if q == [] then []
    else
      Successes(q[..|q| - 1], exec) +
        match exec(q[|q| - 1].f, q[|q| - 1].args)
        case Returned(v) => [v]
        case Raised => []
  }

  /** Storing a key above all present ones appends it to the sorted keys. */
  lemma SortedKeysOfUpdate<V>(m: map<nat, V>, k: nat, v: V)
    requires forall j :: j in m ==> j < k
    ensures SortedKeys(m[k := v].Keys) == SortedKeys(m.Keys) + [k]
  {
    assert m[k := v].Keys == m.Keys + {k};
    SortedKeysExtend(m.Keys, k);
  }

  /** Storing a key above all present ones appends its value to the sorted list. */
  lemma ValuesByKeyExtend<V>(m: map<nat, V>, k: nat, v: V)
    requires forall j :: j in m ==> j < k
    ensures ValuesByKey(m[k := v]) == ValuesByKey(m) + [v]
  {
    var m' := m[k := v];
    var ks := SortedKeys(m.Keys);
    SortedKeysOfUpdate(m, k, v);
    var r := ValuesByKey(m');
    var s := ValuesByKey(m);
    assert |r| == |ks| + 1 by {
      assert k !in m;
    }
    forall i | 0 <= i < |ks|
      ensures r[i] == s[i]
    {
      assert (ks + [k])[i] == ks[i];
      assert ks[i] in m.Keys;
    }
    assert r[|ks|] == v by {
      assert (ks + [k])[|ks|] == k;
    }
    assert r == s + [v];
  }

  /** With increasing indices, `run(sort=True)` lists the values of the calls that returned in
      queue order, with no gap for a cleared or failed item. */
  lemma {:induction false} SortedRunInQueueOrder<A, V>(q: seq<WorkItem<A>>, exec: (FnId, A) -> Outcome<V>)
    requires IncreasingIndices(q)
    ensures ValuesByKey(Collect(map[], q, exec)) == Successes(q, exec)
    decreases |q|
  {
    if q != [] {
      var init := q[..|q| - 1];
      var last := q[|q| - 1];
      SortedRunInQueueOrder(init, exec);
      var m := Collect(map[], init, exec);
      match exec(last.f, last.args)
      case Returned(v) =>
        forall j: nat | j in m
          ensures j < last.index
        {
          CollectKeys(map[], init, exec, j);
          var p :| 0 <= p < |init| && init[p].index == j && exec(init[p].f, init[p].args).Returned?;
          assert init[p] == q[p];
        }
        ValuesByKeyExtend(m, last.index, v);
      case Raised =>
    }
  }

  /** If every call returned, the values in queue order are one per item. */
  lemma {:induction false} SuccessesAllReturned<A, V>(q: seq<WorkItem<A>>, exec: (FnId, A) -> Outcome<V>)
    requires forall p :: 0 <= p < |q| ==> exec(q[p].f, q[p].args).Returned?
    ensures |Successes(q, exec)| == |q|
    ensures forall p :: 0 <= p < |q| ==> Successes(q, exec)[p] == exec(q[p].f, q[p].args).value
    decreases |q|
  {
    if q != [] {
      var init := q[..|q| - 1];
      forall p | 0 <= p < |init|
        ensures exec(init[p].f, init[p].args).Returned?
      {
        assert init[p] == q[p];
      }
      SuccessesAllReturned(init, exec);
      forall p | 0 <= p < |init|
        ensures Successes(q, exec)[p] == exec(q[p].f, q[p].args).value
      {
        assert init[p] == q[p];
      }
    }
  }

  /** `run(sort=True)` on a queue with increasing indices whose calls all returned: one value
      per item, position p holding the result of the p-th submitted item. */
  lemma SortedRunAllReturned<A, V>(q: seq<WorkItem<A>>, exec: (FnId, A) -> Outcome<V>)
    requires IncreasingIndices(q)
    requires forall p :: 0 <= p < |q| ==> exec(q[p].f, q[p].args).Returned?
    ensures var r := ValuesByKey(Collect(map[], q, exec));
      && |r| == |q|
      && forall p :: 0 <= p < |q| ==> r[p] == exec(q[p].f, q[p].args).value
  {
    SortedRunInQueueOrder(q, exec);
    SuccessesAllReturned(q, exec);
  }

  // ---------------------------------------------------------------------------
  // A worked example
  // ---------------------------------------------------------------------------

  const SQUARE: FnId := 0

  /** The callable `square(x) = x * x`. */
  function Square(f: FnId, x: int): Outcome<int>
  {
    Returned(x * x)
  }

  /** Queue square(2), square(3), square(4): they get the indices 0, 1, 2. */
  lemma SquareQueue()
    ensures NewItems(SQUARE, [2, 3, 4], 0) == [WorkItem(SQUARE, 2, 0), WorkItem(SQUARE, 3, 1), WorkItem(SQUARE, 4, 2)]
  {
  }

  /** Running that queue: `run(sort=False)` gives {0: 4, 1: 9, 2: 16}. */
  lemma SquareKeyed(q: seq<WorkItem<int>>)
    requires q == [WorkItem(SQUARE, 2, 0), WorkItem(SQUARE, 3, 1), WorkItem(SQUARE, 4, 2)]
    ensures Deliver(Collect(map[], q, Square), false) == Keyed(map[0 := 4, 1 := 9, 2 := 16])
  {
    var m := Collect(map[], q, Square);
    KeyedRunAllReturned(q, Square);
    assert m.Keys == {0, 1, 2} by {
      forall k: nat
        ensures k in m <==> k in {0, 1, 2}
      {
      }
    }
    assert m[0] == 4 && m[1] == 9 && m[2] == 16;
  }

  /** Running that queue: `run(sort=True)` gives [4, 9, 16]. */
  lemma SquareSorted(q: seq<WorkItem<int>>)
    requires q == [WorkItem(SQUARE, 2, 0), WorkItem(SQUARE, 3, 1), WorkItem(SQUARE, 4, 2)]
    ensures Deliver(Collect(map[], q, Square), true) == Listed([4, 9, 16])
  {
    assert IncreasingIndices(q);
    SortedRunAllReturned(q, Square);
    var r := ValuesByKey(Collect(map[], q, Square));
    assert r[0] == 4 && r[1] == 9 && r[2] == 16;
    assert r == [4, 9, 16];
  }

  const SIN: FnId := 1
  const SLEEP: FnId := 2
  const COS: FnId := 3

  /** The example of the class documentation: sin gets indices 0-3, sleep 4, cos 5-8. */
  method DocstringExample() returns (fns: seq<FnId>, indices: seq<nat>)
    ensures fns == [SIN, SIN, SIN, SIN, SLEEP, COS, COS, COS, COS]
    ensures indices == [0, 1, 2, 3, 4, 5, 6, 7, 8]
  {
    var example := new Async<int, int, string>("TimeoutError", None);
    example.Append(SIN, [1, 2, 3, 50]);
    example.Append(SLEEP, [10]);
    example.Append(COS, [1, 2, 3, 50]);
    var n := example.Count();
    assert n == 9;
    assert example.coroutines[4] == WorkItem(SLEEP, 10, 4);
    fns := Callables(example.coroutines);
    indices := Indices(example.coroutines);
  }

  /** A timed-out run raises the configured error and leaves both items queued; only the
      item that finished before the deadline has stored its result. */
  method TimeoutExample() returns (r: Result<RunOutput<int>, string>, n: nat, stored: map<nat, int>)
    ensures r == Err("TimeoutError") && n == 2 && stored == map[0 := 4]
  {
    var runner := new Async<int, int, string>("TimeoutError", Some(1.0));
    runner.Append(SQUARE, [2, 3]);
    ghost var q := runner.coroutines;
    assert q == [WorkItem(SQUARE, 2, 0), WorkItem(SQUARE, 3, 1)];
    r := runner.Run(Square, true, {0});
    n := runner.Count();
    stored := runner.output;
    assert q[..1] == [WorkItem(SQUARE, 2, 0)];
    assert Select(q, {0}, true) == [WorkItem(SQUARE, 2, 0)] by {
      assert q[..1][..0] == [];
      assert Select(q[..1][..0], {0}, true) == [];
      assert Select(q[..1], {0}, true) == [WorkItem(SQUARE, 2, 0)];
    }
    assert [WorkItem(SQUARE, 2, 0)][..0] == [];
  }
}
