/** The queue of concurrent.c as data: a circular array with its indices, on values
    (`Ring`) and as the object the critical sections change in place (`SharedQueue`). */
module BlockingQueue {
  import opened Rings

  // ---------- the shared ring ----------

  datatype Ring = Ring(items: seq<nat>, head: nat, tail: nat, count: nat, closed: bool) {
    predicate Valid() {
      && head < |items|
      && count <= |items|
      && tail == Wrap(head + count, |items|)
    }

    /** What the ring holds, oldest first. */
    function Contents(): (c: seq<nat>)
      requires Valid()
    {
      seq(count, k requires 0 <= k < count => items[Wrap(head + k, |items|)])
    }

    function Push(value: nat): Ring
      requires Valid()
    {
      Ring(items[tail := value], head, Wrap(tail + 1, |items|), count + 1, closed)
    }

    function Pop(): Ring
      requires Valid() && count > 0
    {
      Ring(items, Wrap(head + 1, |items|), tail, count - 1, closed)
    }
  }

  /** A push appends one value at the back of the contents. */
  lemma PushAppends(r: Ring, value: nat)
    requires r.Valid() && r.count < |r.items|
    ensures r.Push(value).Valid()
    ensures r.Push(value).Contents() == r.Contents() + [value]
  {
    var after := r.Push(value).Contents();
    assert |after| == |r.Contents()| + 1;
    forall k | 0 <= k < |after|
      ensures after[k] == (r.Contents() + [value])[k]
    {
      assert Wrap(r.head + k, |r.items|) < |r.items|;
    }
  }

  /** A pop removes the oldest value, the one at `head`. */
  lemma PopRemovesFirst(r: Ring)
    requires r.Valid() && r.count > 0
    ensures r.Pop().Valid()
    ensures r.Contents() == [r.items[r.head]] + r.Pop().Contents()
  {
    var before, after := r.Contents(), r.Pop().Contents();
    assert |before| == |after| + 1;
    forall k | 0 <= k < |before|
      ensures before[k] == ([r.items[r.head]] + after)[k]
    {
      var m := |r.items|;
      assert Wrap(r.head + k, m) == if k == 0 then r.head else Wrap(Wrap(r.head + 1, m) + (k - 1), m);
      assert before[k] == if k == 0 then r.items[r.head] else after[k - 1];
    }
  }

  // ---------- the ring as the program stores it ----------

  /** The `Queue` object itself: a fixed array and its indices, changed in place
      by the critical sections of queue_push, queue_pop and queue_close. */
  class SharedQueue {
    const items: array<nat>
    var head: nat
    var tail: nat
    var count: nat
    var closed: bool

    constructor (capacity: nat)
      requires capacity > 0
      ensures fresh(items) && items.Length == capacity
      ensures Snapshot().Valid() && Snapshot().Contents() == [] && !closed
    {
      items := new nat[capacity];
      head, tail, count := 0, 0, 0;
      closed := false;
    }

    ghost function Snapshot(): Ring
      reads this, items
    {
      Ring(items[..], head, tail, count, closed)
    }

    /** The critical section of queue_push after its wait loop; `signalled` says
        whether it signals not_empty. */
    method PushBody(value: nat) returns (signalled: bool)
      requires Snapshot().Valid()
      requires count == items.Length ==> closed   // what the wait loop establishes
      modifies this, items
      ensures Snapshot() == if old(closed) then old(Snapshot()) else old(Snapshot()).Push(value)
      ensures Snapshot().Valid()
      ensures Snapshot().Contents() ==
              old(Snapshot().Contents()) + if old(closed) then [] else [value]
      ensures signalled == !old(closed)
    {
      signalled := false;
      if !closed {
        PushAppends(Snapshot(), value);
        items[tail] := value;
        tail := Wrap(tail + 1, items.Length);
        count := count + 1;
        signalled := true;
      }
    }

    /** The critical section of queue_pop after its wait loop. */
    method PopBody() returns (ok: bool, value: nat)
      requires Snapshot().Valid()
      requires count == 0 ==> closed              // what the wait loop establishes
      modifies this
      ensures ok == (old(count) > 0)
      ensures Snapshot() == if ok then old(Snapshot()).Pop() else old(Snapshot())
      ensures Snapshot().Valid()
      ensures ok ==> old(Snapshot().Contents()) == [value] + Snapshot().Contents()
    {
      if count == 0 {
        return false, 0;
      }
      PopRemovesFirst(Snapshot());
      value := items[head];
      head := Wrap(head + 1, items.Length);
      count := count - 1;
      ok := true;
    }

    /** The critical section of queue_close. */
    method CloseBody()
      modifies this`closed
      ensures Snapshot() == old(Snapshot()).(closed := true)
    {
      closed := true;
    }
  }
}
