/** The byte ring of constrained.c: a fixed array that refuses when it is full. */
module ByteRing {
  import opened Bytes
  import opened Rings

  const RING_SIZE: nat := 16

  /** From tail up to head, around the end of the array. */
  function Window(data: seq<byte>, head: nat, tail: nat): (w: seq<byte>)
    requires |data| == RING_SIZE && head < RING_SIZE && tail < RING_SIZE
    ensures |w| == if tail <= head then head - tail else head + RING_SIZE - tail
  {
    seq(Wrap(head + RING_SIZE - tail, RING_SIZE), k requires 0 <= k < RING_SIZE => data[Wrap(tail + k, RING_SIZE)])
  }

  /** Storing at head and moving it appends, unless head would meet tail; that is when
      all slots but one are taken. */
  lemma WindowGrows(data: seq<byte>, head: nat, tail: nat, v: byte)
    requires |data| == RING_SIZE && head < RING_SIZE && tail < RING_SIZE
    ensures Wrap(head + 1, RING_SIZE) == tail <==> |Window(data, head, tail)| == RING_SIZE - 1
    ensures Wrap(head + 1, RING_SIZE) != tail ==>
              Window(data[head := v], Wrap(head + 1, RING_SIZE), tail) == Window(data, head, tail) + [v]
  {
    if Wrap(head + 1, RING_SIZE) != tail {
      var w, after := Window(data, head, tail), Window(data[head := v], Wrap(head + 1, RING_SIZE), tail);
      forall k | 0 <= k < |after| ensures after[k] == (w + [v])[k] {
        assert Wrap(tail + k, RING_SIZE) == head <==> k == |w|;
      }
    }
  }

  /** Moving tail takes the oldest byte off. */
  lemma WindowShrinks(data: seq<byte>, head: nat, tail: nat)
    requires |data| == RING_SIZE && head < RING_SIZE && tail < RING_SIZE
    ensures tail == head <==> Window(data, head, tail) == []
    ensures tail != head ==> Window(data, head, tail) == [data[tail]] + Window(data, head, Wrap(tail + 1, RING_SIZE))
  {
    if tail != head {
      var w, after := Window(data, head, tail), Window(data, head, Wrap(tail + 1, RING_SIZE));
      forall k | 0 <= k < |w| ensures w[k] == ([data[tail]] + after)[k] {
        assert w[k] == data[Wrap(tail + k, RING_SIZE)];
        if k > 0 {
          assert after[k - 1] == data[Wrap(Wrap(tail + 1, RING_SIZE) + (k - 1), RING_SIZE)];
          assert Wrap(Wrap(tail + 1, RING_SIZE) + (k - 1), RING_SIZE) == Wrap(tail + k, RING_SIZE);
        }
      }
    }
  }

  class Ring {
    const data: array<byte>
    var head: nat
    var tail: nat

    ghost predicate Valid()
      reads this
    {
      data.Length == RING_SIZE && head < RING_SIZE && tail < RING_SIZE
    }

    /** What the ring holds, oldest first. */
    ghost function Contents(): (c: seq<byte>)
      requires Valid()
      reads this, data
    {
      Window(data[..], head, tail)
    }

    constructor ()
      ensures Valid() && Contents() == [] && fresh(data)
    {
      data, head, tail := new byte[RING_SIZE], 0, 0;
    }

    /** ring_push */
    method Push(v: byte) returns (ok: bool)
      requires Valid()
      modifies this`head, data
      ensures Valid() && ok == (|old(Contents())| < RING_SIZE - 1)
      ensures Contents() == old(Contents()) + if ok then [v] else []
    {
      WindowGrows(data[..], head, tail, v);
      var next := Wrap(head + 1, RING_SIZE);
      if next == tail { return false; }
      ghost var stored := data[..][head := v];
      data[head] := v;
      assert data[..] == stored;
      head := next;
      return true;
    }

    /** ring_pop */
    method Pop() returns (ok: bool, v: byte)
      requires Valid()
      modifies this`tail
      ensures Valid() && ok == (old(Contents()) != [])
      ensures old(Contents()) == (if ok then [v] else []) + Contents()
    {
      WindowShrinks(data[..], head, tail);
      if tail == head { return false, 0; }
      v := data[tail];
      tail := Wrap(tail + 1, RING_SIZE);
      return true, v;
    }
  }
}
