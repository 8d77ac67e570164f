/** Queues kept in rings of cells, as the drivers use them. */
module Rings {
  import opened Bits

  /** The index i places after start in a ring of n. */
  function Wrap(start: nat, i: nat, n: nat): nat
    requires start < n && i <= n
  {
    if start + i < n then start + i else start + i - n
  }

  /** The n-place ring holds the queue q, from index start on. */
  ghost predicate Ring<T>(cells: seq<T>, start: nat, n: nat, q: seq<T>) {
    && start < n <= |cells| && |q| <= n
    && forall i {:trigger Nth(i)} :: 0 <= i < |q| ==> q[i] == cells[Wrap(start, i, n)]
  }

  /** Names a place of a queue, for a proof that looks at it. */
  predicate Nth(i: int) {
    true
  }

  lemma RingEmpty<T>(cells: seq<T>, start: nat, n: nat)
    requires start < n <= |cells|
    ensures Ring(cells, start, n, []) && Wrap(start, 0, n) == start
  {
  }

  lemma ModIsWrap(start: nat, i: nat, n: nat)
    requires start < n && i <= n
    ensures (start + i) % n == Wrap(start, i, n) < n
  {
    DivUnique(start + i, n, if start + i < n then 0 else 1, Wrap(start, i, n));
  }

  lemma RingTake<T>(cells: seq<T>, start: nat, n: nat, q: seq<T>)
    requires Ring(cells, start, n, q) && q != []
    ensures cells[start] == q[0]
    ensures (start + 1) % n < n && Ring(cells, (start + 1) % n, n, q[1..])
    ensures Wrap((start + 1) % n, |q| - 1, n) == Wrap(start, |q|, n)
  {
    ModIsWrap(start, 1, n);
    var next := Wrap(start, 1, n);
    assert Nth(0);
    forall i | 0 <= i < |q| - 1
      ensures q[1..][i] == cells[Wrap(next, i, n)]
    {
      assert Nth(i + 1);
      assert q[1..][i] == q[i + 1];
    }
  }

  lemma RingPut<T>(cells: seq<T>, start: nat, n: nat, q: seq<T>, x: T)
    requires Ring(cells, start, n, q) && |q| < n
    ensures Wrap(start, |q| + 1, n) == (Wrap(start, |q|, n) + 1) % n
    ensures Wrap(start, |q|, n) < |cells| && Ring(cells[Wrap(start, |q|, n) := x], start, n, q + [x])
  {
    var at := Wrap(start, |q|, n);
    ModIsWrap(at, 1, n);
    forall i | 0 <= i < |q| + 1
      ensures (q + [x])[i] == cells[at := x][Wrap(start, i, n)]
    {
      if i < |q| {
        assert Nth(i) && Wrap(start, i, n) != at;
      }
    }
  }
}
