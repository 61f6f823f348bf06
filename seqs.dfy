/** Sequence and set helpers that stand for the Python built-ins the queue relies on:
    `list.pop`, `sorted` (and `reversed`) and the keys of a dict in ascending order. */
module Seqs {

  /** The elements of `s` at the positions `p` for which `(p in P) == keep`,
      in their original relative order. `keep == false` removes the positions in `P`. */
  function Select<T>(s: seq<T>, P: set<int>, keep: bool): seq<T>
    decreases |s|
  {
    if s == [] then []
    else Select(s[..|s| - 1], P, keep) + (if (|s| - 1 in P) == keep then [s[|s| - 1]] else [])
  }

  /** Selecting from `s + [x]` decides about `x` last. */
  lemma SelectSnoc<T>(s: seq<T>, x: T, P: set<int>, keep: bool)
    ensures Select(s + [x], P, keep) == Select(s, P, keep) + (if (|s| in P) == keep then [x] else [])
  {
    assert (s + [x])[..|s|] == s;
  }

  /** Python's `list.pop(i)` on a list `s`: a negative `i` counts from the end. */
  function Pop<T>(s: seq<T>, i: int): (r: seq<T>)
    requires -|s| <= i < |s|
    ensures |r| == |s| - 1
    ensures var j := if i < 0 then |s| + i else i;
      r[..j] == s[..j] && r[j..] == s[j + 1..]
  {
    var j := if i < 0 then |s| + i else i;
    s[..j] + s[j + 1..]
  }

  /** Every position of `Select(s, P, keep)` holds an element of `s`. */
  lemma {:induction false} SelectSubset<T>(s: seq<T>, P: set<int>, keep: bool)
    ensures |Select(s, P, keep)| <= |s|
    ensures forall x :: x in Select(s, P, keep) ==> x in s
    decreases |s|
  {
    if s != [] {
      SelectSubset(s[..|s| - 1], P, keep);
    }
  }

  /** Only the positions `0 .. |s|-1` of the set matter. */
  lemma {:induction false} SelectIrrelevant<T>(s: seq<T>, P: set<int>, P': set<int>, keep: bool)
    requires forall q :: 0 <= q < |s| ==> (q in P <==> q in P')
    ensures Select(s, P, keep) == Select(s, P', keep)
    decreases |s|
  {
    if s != [] {
      SelectIrrelevant(s[..|s| - 1], P, P', keep);
    }
  }

  /** Removing only positions below `n` leaves the suffix from `n` on intact. */
  lemma {:induction false} SelectSplit<T>(s: seq<T>, P: set<int>, n: nat)
    requires n <= |s|
    requires forall q :: q in P ==> q < n
    ensures Select(s, P, false) == Select(s[..n], P, false) + s[n..]
    decreases |s|
  {
    if |s| == n {
      assert s[..n] == s;
    } else {
      var init := s[..|s| - 1];
      SelectSplit(init, P, n);
      assert init[..n] == s[..n];
      assert init[n..] + [s[|s| - 1]] == s[n..];
    }
  }

  /** Popping the position `p` above every other removed position removes it from the selection. */
  lemma SelectPopHighest<T>(s: seq<T>, P: set<int>, p: nat)
    requires p < |s|
    requires forall q :: q in P ==> q < p
    ensures Select(Pop(s, p), P, false) == Select(s, P + {p}, false)
  {
    var t := Pop(s, p);
    SelectSplit(t, P, p);
    assert t[..p] == s[..p];
    SelectSplit(s, P + {p}, p + 1);
    assert s[..p + 1][..p] == s[..p];
    SelectIrrelevant(s[..p], P + {p}, P, false);
  }

  /** Descending order, as `reversed(sorted(xs))` produces it. */
  predicate Descending(xs: seq<int>)
  {
    forall i, j :: 0 <= i < j < |xs| ==> xs[i] >= xs[j]
  }

  /** Strictly ascending order. */
  predicate Increasing(xs: seq<nat>)
  {
    forall i, j :: 0 <= i < j < |xs| ==> xs[i] < xs[j]
  }

  /** A bound on `x` and on every element of `xs` bounds every element of a sequence
      holding `x` and the elements of `xs`, such as `InsertDesc(x, xs)`. */
  lemma InsertDescBound(x: int, xs: seq<int>, r: seq<int>, top: int)
    requires multiset(r) == multiset(xs) + multiset{x}
    requires top >= x && forall j :: 0 <= j < |xs| ==> top >= xs[j]
    ensures forall i :: 0 <= i < |r| ==> top >= r[i]
  {
    forall i | 0 <= i < |r|
      ensures top >= r[i]
    {
      assert r[i] in multiset(r);
      if r[i] != x {
        assert r[i] in multiset(xs);
      }
    }
  }

  lemma DescendingCons(h: int, t: seq<int>)
    requires Descending(t)
    requires forall i :: 0 <= i < |t| ==> h >= t[i]
    ensures Descending([h] + t)
  {
    var r := [h] + t;
    forall i, j | 0 <= i < j < |r|
      ensures r[i] >= r[j]
    {
      assert r[j] == t[j - 1];
      if i > 0 {
        assert r[i] == t[i - 1];
      }
    }
  }

  function InsertDesc(x: int, xs: seq<int>): (r: seq<int>)
    requires Descending(xs)
    ensures Descending(r)
    ensures multiset(r) == multiset(xs) + multiset{x}
    decreases |xs|
  {
    if xs == [] || x >= xs[0] then [x] + xs
    else
      var rest := InsertDesc(x, xs[1..]);
      assert xs == [xs[0]] + xs[1..];
      InsertDescBound(x, xs[1..], rest, xs[0]);
      DescendingCons(xs[0], rest);
      [xs[0]] + rest
  }

  /** `reversed(sorted(xs))`: the same integers, largest first. */
  function SortDesc(xs: seq<int>): (r: seq<int>)
    ensures Descending(r)
    ensures multiset(r) == multiset(xs)
    decreases |xs|
  {
    if xs == [] then []
    else
      assert xs == [xs[0]] + xs[1..];
      InsertDesc(xs[0], SortDesc(xs[1..]))
  }

  /** `m` is the least element of `ks`. */
  predicate IsMin(m: nat, ks: set<nat>)
  {
    m in ks && forall k :: k in ks ==> m <= k
  }

  lemma {:induction false} MinExists(ks: set<nat>)
    requires ks != {}
    ensures exists m :: IsMin(m, ks)
    decreases |ks|
  {
    var x :| x in ks;
    var rest := ks - {x};
    if rest == {} {
      assert ks == {x};
      assert IsMin(x, ks);
    } else {
      MinExists(rest);
      var m :| IsMin(m, rest);
      var lo := if x < m then x else m;
      forall k | k in ks
        ensures lo <= k
      {
        if k != x {
          assert k in rest;
        }
      }
      assert IsMin(lo, ks);
    }
  }

  /** The least key of a non-empty set. */
  function MinKey(ks: set<nat>): (m: nat)
    requires ks != {}
    ensures IsMin(m, ks)
  {
    MinExists(ks);
    var m :| IsMin(m, ks);
    m
  }

  /** `sorted(ks)` for a set of non-negative keys: every key once, ascending. */
  function SortedKeys(ks: set<nat>): (r: seq<nat>)
    ensures |r| == |ks|
    ensures Increasing(r)
    ensures forall k :: k in r <==> k in ks
    decreases |ks|
  {
    if ks == {} then []
    else
      var m := MinKey(ks);
      var rest := SortedKeys(ks - {m});
      assert forall k :: k in rest ==> k in ks && k != m;
      [m] + rest
  }

  /** An ascending sequence is determined by the set of its elements. */
  lemma {:induction false} IncreasingUnique(a: seq<nat>, b: seq<nat>)
    requires Increasing(a) && Increasing(b) && |a| == |b|
    requires forall k :: k in a <==> k in b
    ensures a == b
    decreases |a|
  {
    if a != [] {
      assert a[0] in b;
      assert b[0] in a;
      assert a[0] == b[0];
      forall k
        ensures k in a[1..] <==> k in b[1..]
      {
        if k in a[1..] {
          assert k in a && k != a[0];
        }
        if k in b[1..] {
          assert k in b && k != b[0];
        }
      }
      IncreasingUnique(a[1..], b[1..]);
      assert a == [a[0]] + a[1..];
      assert b == [b[0]] + b[1..];
    }
  }

  /** Adding a key above all present ones appends it to the sorted keys. */
  lemma SortedKeysExtend(ks: set<nat>, k: nat)
    requires forall j :: j in ks ==> j < k
    ensures SortedKeys(ks + {k}) == SortedKeys(ks) + [k]
  {
    var sk := SortedKeys(ks);
    var r := sk + [k];
    forall i, j | 0 <= i < j < |r|
      ensures r[i] < r[j]
    {
      if j == |sk| {
        assert r[i] == sk[i] && sk[i] in ks;
      } else {
        assert r[i] == sk[i] && r[j] == sk[j];
      }
    }
    IncreasingUnique(SortedKeys(ks + {k}), r);
  }
}
