/** The fixed-block pool of constrained.c: a free list threaded through the blocks
    that nobody holds. */
module BlockPool {

  const POOL_BLOCKS: nat := 8

  /** A block of the pool's storage. While it is free its first bytes are `next`;
      while it is held they are whatever the holder wrote there. */
  class Block {
    var next: Block?
    constructor () { next := null; }
  }

  ghost predicate Distinct(blocks: seq<Block>) {
    forall i, j :: 0 <= i < j < |blocks| ==> blocks[i] != blocks[j]
  }

  ghost predicate Linked(head: Block?, blocks: seq<Block>)
    reads blocks
  {
    && head == (if blocks == [] then null else blocks[0])
    && (forall i {:trigger blocks[i].next} :: 0 <= i < |blocks| ==>
          blocks[i].next == if i + 1 < |blocks| then blocks[i + 1] else null)
  }

  ghost function SetOf(blocks: seq<Block>): set<Block> { set b | b in blocks }

  lemma {:induction false} SizeOfDistinct(blocks: seq<Block>)
    requires Distinct(blocks)
    ensures |SetOf(blocks)| == |blocks|
    decreases |blocks|
  {
    if blocks != [] {
      var n := |blocks| - 1;
      SizeOfDistinct(blocks[..n]);
      assert SetOf(blocks) == SetOf(blocks[..n]) + {blocks[n]};
      assert blocks[n] !in blocks[..n];
    }
  }

  lemma FirstTaken(blocks: seq<Block>)
    requires Distinct(blocks) && blocks != []
    ensures Distinct(blocks[1..]) && blocks[0] !in blocks[1..]
    ensures forall b :: b in blocks && b != blocks[0] <==> b in blocks[1..]
  {
    assert blocks == [blocks[0]] + blocks[1..];
    assert forall i :: 0 < i < |blocks| ==> blocks[1..][i - 1] == blocks[i];
  }

  lemma FirstAdded(b: Block, blocks: seq<Block>)
    requires Distinct(blocks) && b !in blocks
    ensures Distinct([b] + blocks)
    ensures forall x :: x in [b] + blocks <==> x == b || x in blocks
  {
    var all := [b] + blocks;
    assert all[0] == b && forall i :: 0 < i < |all| ==> all[i] == blocks[i - 1];
  }

  class Pool {
    const storage: seq<Block>
    var freeList: Block?
    var inUse: nat
    var peak: nat
    ghost var free: seq<Block>
    ghost var held: set<Block>

    /** The free list and the held blocks partition the storage. Nothing is said of
        what a held block contains. */
    ghost predicate Valid()
      reads this, storage
    {
      && Distinct(storage) && |storage| == POOL_BLOCKS
      && (forall i :: 0 <= i < |free| ==> free[i] in storage)
      && (forall b :: b in held ==> b in storage)
      && (forall b :: b in storage ==> (b in free) != (b in held))
      && Distinct(free) && Linked(freeList, free)
      && |free| + |held| == POOL_BLOCKS
      && inUse == |held| <= peak <= POOL_BLOCKS
    }

    ghost function View(): State
      reads this
    {
      State(free, held, peak)
    }

    constructor (storage: seq<Block>)
      requires Distinct(storage) && |storage| == POOL_BLOCKS
      ensures this.storage == storage
    {
      this.storage := storage;
      freeList, inUse, peak := null, 0, 0;
    }

    /** pool_init: thread every block onto the free list, the last one first. */
    method Init()
      requires Distinct(storage) && |storage| == POOL_BLOCKS
      modifies this, storage
      ensures Valid() && held == {} && peak == 0
      ensures |free| == POOL_BLOCKS && forall i :: 0 <= i < POOL_BLOCKS ==> free[i] == storage[POOL_BLOCKS - 1 - i]
    {
      freeList, free, held := null, [], {};
      var i := 0;
      while i < POOL_BLOCKS
        invariant i <= POOL_BLOCKS && |free| == i && held == {}
        invariant forall k :: 0 <= k < i ==> free[k] == storage[i - 1 - k]
        invariant Linked(freeList, free)
      {
        var b := storage[i];
        assert b !in free;
        b.next := freeList;
        freeList := b;
        free := [b] + free;
        i := i + 1;
      }
      inUse, peak := 0, 0;
      forall b | b in storage ensures b in free {
        var k :| 0 <= k < POOL_BLOCKS && storage[k] == b;
        assert free[POOL_BLOCKS - 1 - k] == b;
      }
    }

    /** With an empty free list every block is held. */
    lemma AllHeld()
      requires Valid()
      ensures free == [] <==> held == SetOf(storage)
    {
      SizeOfDistinct(storage);
      if free == [] {
        assert held == SetOf(storage);
      } else {
        assert free[0] in storage;
      }
    }

    /** pool_alloc */
    method Alloc() returns (b: Block?)
      requires Valid()
      modifies this
      ensures Valid()
      ensures b == (if old(free) == [] then null else old(free)[0])
      ensures View() == AllocSpec(old(View()))
      ensures b == null <==> old(held) == SetOf(storage)
      ensures b != null ==> b !in old(held) && b in held
    {
      AllHeld();
      if freeList == null { return null; }
      b := freeList;
      freeList := b.next;
      inUse := inUse + 1;
      if inUse > peak { peak := inUse; }
      assert b !in held && b == free[0];
      FirstTaken(free);
      held, free := held + {b}, free[1..];
    }

    /** pool_free, of a block that is held or of NULL. */
    method Free(p: Block?)
      requires Valid() && (p != null ==> p in held)
      modifies this, p
      ensures Valid()
      ensures View() == if p == null then old(View()) else FreeSpec(old(View()), p)
    {
      if p == null { return; }
      FirstAdded(p, free);
      p.next := freeList;
      freeList := p;
      inUse := inUse - 1;
      free, held := [p] + free, held - {p};
    }

    /** The holder of a block may overwrite all of it. */
    method Scribble(b: Block, junk: Block?)
      requires Valid() && b in held
      modifies b
      ensures Valid() && View() == old(View())
    {
      b.next := junk;
    }

    method Perform(op: Op) returns (handed: Block?)
      requires Valid() && (!op.Alloc? ==> op.b in held)
      modifies this, storage
      ensures Valid() && View() == Step(old(View()), op)
      ensures handed == if op.Alloc? && old(free) != [] then old(free)[0] else null
    {
      handed := null;
      match op {
        case Alloc => handed := Alloc();
        case Free(b) => Free(b);
        case Scribble(b, junk) => Scribble(b, junk);
      }
    }

    /** Any run on a fresh pool that frees, and writes to, only blocks it holds: the pool
        stays consistent, and in_use and peak are the number of held blocks now and its
        maximum so far. */
    method PerformAll(ops: seq<Op>)
      requires Valid() && held == {} && peak == 0 && Matched(View(), ops)
      modifies this, storage
      ensures Valid() && View() == After(old(View()), ops)
      ensures inUse == HeldAfter(old(View()), ops, |ops|)
      ensures forall i :: 0 <= i <= |ops| ==> HeldAfter(old(View()), ops, i) <= peak
      ensures exists i :: 0 <= i <= |ops| && HeldAfter(old(View()), ops, i) == peak
    {
      ghost var start := View();
      for i := 0 to |ops|
        invariant Valid() && View() == After(start, ops[..i])
      {
        assert ops[..i + 1][..i] == ops[..i];
        var _ := Perform(ops[i]);
      }
      HeldAtEnd(start, ops);
      assert ops[..|ops|] == ops;
      StartPartition(start, storage);
      PeakIsMaximum(start, ops, SetOf(storage));
    }
  }

  lemma StartPartition(s: State, storage: seq<Block>)
    requires Distinct(s.free) && s.held == {}
    requires (forall b :: b in s.free ==> b in storage) && (forall b :: b in storage ==> b in s.free)
    ensures Partition(s, SetOf(storage))
  {
  }

  // ---------- whole runs ----------

  datatype State = State(free: seq<Block>, held: set<Block>, peak: nat)

  ghost function AllocSpec(s: State): State {
    if s.free == [] then s else
    var held := s.held + {s.free[0]};
    State(s.free[1..], held, if |held| > s.peak then |held| else s.peak)
  }

  ghost function FreeSpec(s: State, b: Block): State { State([b] + s.free, s.held - {b}, s.peak) }

  /** Scribble is the holder writing to its block. */
  datatype Op = Alloc | Free(b: Block) | Scribble(b: Block, junk: Block?)

  ghost function Step(s: State, op: Op): State {
    match op
    case Alloc => AllocSpec(s)
    case Free(b) => FreeSpec(s, b)
    case Scribble(_, _) => s
  }

  ghost function After(s: State, ops: seq<Op>): State {
    if ops == [] then s else Step(After(s, ops[..|ops| - 1]), ops[|ops| - 1])
  }

  /** Every block freed or written to is held at that moment. */
  ghost predicate Matched(s: State, ops: seq<Op>) {
    forall i :: 0 <= i < |ops| && !ops[i].Alloc? ==> ops[i].b in After(s, ops[..i]).held
  }

  ghost predicate Partition(s: State, storage: set<Block>) {
    && Distinct(s.free)
    && SetOf(s.free) !! s.held && SetOf(s.free) + s.held == storage
  }

  lemma MatchedPrefix(s: State, ops: seq<Op>)
    requires Matched(s, ops) && ops != []
    ensures Matched(s, ops[..|ops| - 1])
    ensures !ops[|ops| - 1].Alloc? ==> ops[|ops| - 1].b in After(s, ops[..|ops| - 1]).held
  {
    var rest := ops[..|ops| - 1];
    forall i | 0 <= i < |rest| && !rest[i].Alloc? ensures rest[i].b in After(s, rest[..i]).held {
      assert rest[..i] == ops[..i];
    }
  }

  /** How many blocks are held after the first i operations. */
  ghost function HeldAfter(s: State, ops: seq<Op>, i: nat): nat
    requires i <= |ops|
  {
    |After(s, ops[..i]).held|
  }

  lemma HeldAfterPrefix(s: State, ops: seq<Op>, i: nat)
    requires i < |ops|
    ensures HeldAfter(s, ops[..|ops| - 1], i) == HeldAfter(s, ops, i)
  {
    assert ops[..|ops| - 1][..i] == ops[..i];
  }

  lemma HeldAtEnd(s: State, ops: seq<Op>)
    ensures HeldAfter(s, ops, |ops|) == |After(s, ops).held|
  {
    assert ops[..|ops|] == ops;
  }

  /** Over any run: free and held blocks always partition the storage, and the peak is
      the largest number of blocks held at once so far. */
  lemma {:induction false} PeakIsMaximum(s: State, ops: seq<Op>, storage: set<Block>)
    requires Partition(s, storage) && s.held == {} && s.peak == 0 && Matched(s, ops)
    ensures Partition(After(s, ops), storage)
    ensures forall i :: 0 <= i <= |ops| ==> HeldAfter(s, ops, i) <= After(s, ops).peak
    ensures exists i :: 0 <= i <= |ops| && HeldAfter(s, ops, i) == After(s, ops).peak
    decreases |ops|
  {
    HeldAtEnd(s, ops);
    if ops == [] {
      assert HeldAfter(s, ops, 0) == 0;
    } else {
      var rest := ops[..|ops| - 1];
      MatchedPrefix(s, ops);
      PeakIsMaximum(s, rest, storage);
      StepPartition(After(s, rest), ops[|ops| - 1], storage);
      HeldAtEnd(s, rest);
      forall i | 0 <= i < |ops| ensures HeldAfter(s, ops, i) <= After(s, ops).peak {
        HeldAfterPrefix(s, ops, i);
      }
      var k :| 0 <= k <= |rest| && HeldAfter(s, rest, k) == After(s, rest).peak;
      HeldAfterPrefix(s, ops, k);
    }
  }

  lemma StepPartition(s: State, op: Op, storage: set<Block>)
    requires Partition(s, storage) && (!op.Alloc? ==> op.b in s.held)
    ensures Partition(Step(s, op), storage)
    ensures s.peak <= Step(s, op).peak
    ensures |s.held| <= s.peak ==> |Step(s, op).held| <= Step(s, op).peak
    ensures Step(s, op).peak == s.peak || Step(s, op).peak == |Step(s, op).held|
  {
    match op
    case Alloc => if s.free != [] { AllocPartition(s, storage); }
    case Free(b) => FreePartition(s, b, storage); FewerHeld(s, b);
    case Scribble(_, _) =>
  }

  lemma OneFirst(b: Block, rest: seq<Block>)
    ensures SetOf([b] + rest) == {b} + SetOf(rest)
    ensures Distinct([b] + rest) <==> b !in SetOf(rest) && Distinct(rest)
  {
    var all := [b] + rest;
    if Distinct(all) {
      forall i, j | 0 <= i < j < |rest| ensures rest[i] != rest[j] {
        assert all[i + 1] != all[j + 1];
      }
      forall i | 0 <= i < |rest| ensures rest[i] != b {
        assert all[0] != all[i + 1];
      }
    }
  }

  lemma AllocPartition(s: State, storage: set<Block>)
    requires Partition(s, storage) && s.free != []
    ensures Partition(AllocSpec(s), storage)
  {
    assert s.free == [s.free[0]] + s.free[1..];
    OneFirst(s.free[0], s.free[1..]);
    var all, rest, b := SetOf(s.free), SetOf(s.free[1..]), s.free[0];
    assert rest !! (s.held + {b}) && rest + (s.held + {b}) == all + s.held;
  }

  lemma FreePartition(s: State, b: Block, storage: set<Block>)
    requires Partition(s, storage) && b in s.held
    ensures Partition(FreeSpec(s, b), storage)
  {
    OneFirst(b, s.free);
    var rest := SetOf(s.free);
    assert ({b} + rest) !! (s.held - {b}) && ({b} + rest) + (s.held - {b}) == rest + s.held;
  }

  lemma FewerHeld(s: State, b: Block)
    requires b in s.held
    ensures |FreeSpec(s, b).held| < |s.held|
  {
  }
}
