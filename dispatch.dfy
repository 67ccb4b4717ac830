/** The shared work counter that the worker goroutines of a stage draw
    indices from. */
module Dispatch {

  const MinInt32: int := -0x8000_0000
  const MaxInt32: int := 0x7fff_ffff

  /** The value an `int32` holds after an addition whose exact result is `x`:
      arithmetic modulo 2^32, in the signed range. */
  function WrapInt32(x: int): (r: int)
    ensures MinInt32 <= r <= MaxInt32
    ensures (x - r) % 0x1_0000_0000 == 0
    ensures MinInt32 <= x <= MaxInt32 ==> r == x
  {
    (x - MinInt32) % 0x1_0000_0000 + MinInt32
  }

  /** The counter `ops` of a stage. It starts at -1, and every draw is
      `atomic.AddInt32(&ops, 1)`, whose new value is the index handed out. */
  class Dispenser {
    var ops: int

    constructor ()
      ensures ops == -1
    {
      ops := -1;
    }

    method Next() returns (index: int)
      modifies this
      ensures ops == WrapInt32(old(ops) + 1)
      ensures index == ops
    {
      ops := WrapInt32(ops + 1);
      index := ops;
    }
  }

  /** The indices 0, 1, ..., n - 1 in order. */
  function Iota(n: nat): (s: seq<int>)
    ensures |s| == n
    ensures forall i :: 0 <= i < n ==> s[i] == i
  {
    if n == 0 then [] else Iota(n - 1) + [n - 1]
  }

  /** One more draw extends the handed-out indices by the next one. */
  lemma IotaSnoc(n: nat)
    ensures Iota(n + 1) == Iota(n) + [n]
  {
  }

  /** Every index below n occurs in `Iota(n)` exactly once, and nothing else
      occurs in it. */
  lemma {:induction false} IotaExactlyOnce(n: nat)
    ensures forall x :: 0 <= x < n ==> multiset(Iota(n))[x] == 1
    ensures forall x :: x !in Iota(n) <==> x < 0 || n <= x
  {
    if n > 0 {
      var prev := Iota(n - 1);
      IotaExactlyOnce(n - 1);
      assert Iota(n) == prev + [n - 1];
      assert multiset(Iota(n)) == multiset(prev) + multiset{n - 1};
      assert multiset(prev)[n - 1] == 0;
    }
  }

  /** The identities of the workers of a stage with `routine` goroutines. */
  function Workers(routine: nat): (ws: set<int>)
    ensures forall w :: w in ws <==> 0 <= w < routine
  {
    if routine == 0 then {} else Workers(routine - 1) + {routine - 1}
  }

  lemma {:induction false} WorkersCount(routine: nat)
    ensures |Workers(routine)| == routine
  {
    if routine > 0 {
      var prev := Workers(routine - 1);
      WorkersCount(routine - 1);
      assert routine - 1 !in prev;
      assert |prev + {routine - 1}| == |prev| + 1 by {
        assert prev * {routine - 1} == {};
      }
    }
  }
}
