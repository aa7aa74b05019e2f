/**
 The ring of samples waiting to be compressed: sixteen elements, indices kept in range by masking.
 */
module SampleRing {
  import opened Common

  const RING_SIZE: int := 16

  /** n elements of a sixteen-element ring from position `at`. */
  function RingSlice(s: seq<int32>, at: nat, n: nat): (r: seq<int32>)
    requires |s| == 16
    ensures |r| == n
  {
    seq(n, i requires 0 <= i => s[(at + i) % 16])
  }

  lemma {:induction false} RingPut(s: seq<int32>, at: nat, n: nat, x: int32)
    requires |s| == 16 && n < 16
    ensures RingSlice(s[(at + n) % 16 := x], at, n + 1) == RingSlice(s, at, n) + [x]
  {
  }

  lemma {:induction false} RingDrop(s: seq<int32>, at: nat, n: nat, k: nat)
    requires |s| == 16 && k <= n
    ensures RingSlice(s, (at + k) % 16, n - k) == RingSlice(s, at, n)[k..]
  {
  }

  lemma {:induction false} RingNext(at: nat, n: nat, k: nat)
    requires at < 16 && k <= n <= 16
    ensures ((at + n) % 16 + 1) % 16 == (at + n + 1) % 16
    ensures ((at + k) % 16 + (n - k)) % 16 == (at + n) % 16
  {
  }

  class SampleRing {
    const peeks: array<int32>
    var nextIn: nat
    var nextOut: nat
    var peekTotal: nat
    ghost var pending: seq<int32>      // the samples in the ring, oldest first

    ghost predicate Valid()
      reads this, peeks
    {
      && peeks.Length == 16 && peekTotal <= 16 && nextOut < 16
      && nextIn == (nextOut + peekTotal) % 16
      && pending == RingSlice(peeks[..], nextOut, peekTotal)
    }

    constructor ()
      ensures Valid() && fresh(peeks) && pending == []
    {
      peeks := new int32[16](_ => 0);
      nextIn, nextOut, peekTotal, pending := 0, 0, 0, [];
    }

    method Put(x: int32)
      requires Valid() && peekTotal < RING_SIZE
      modifies this, peeks
      ensures Valid() && pending == old(pending) + [x]
    {
      ghost var was := peeks[..];
      RingPut(was, nextOut, peekTotal, x);
      RingNext(nextOut, peekTotal, 0);
      peeks[nextIn] := x;
      assert peeks[..] == was[nextIn := x];
      nextIn := (nextIn + 1) % 16;
      peekTotal := peekTotal + 1;
      pending := pending + [x];
    }

    method Peek(i: nat) returns (x: int32)
      requires Valid() && i < peekTotal
      ensures x == pending[i]
    {
      x := peeks[(nextOut + i) % 16];
    }

    method Drop(n: nat)
      requires Valid() && n <= peekTotal
      modifies this
      ensures Valid() && pending == old(pending)[n..]
    {
      RingDrop(peeks[..], nextOut, peekTotal, n);
      RingNext(nextOut, peekTotal, n);
      peekTotal := peekTotal - n;
      nextOut := (nextOut + n) % 16;
      pending := pending[n..];
    }
  }
}
