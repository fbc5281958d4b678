/** The chained hash table of adt.c: entries on the heap, linked by `next` from an
    array of buckets, relinked into a larger array when the table grows.

    The reasoning about chains is about a snapshot of the heap, a map from entries to
    their mutable fields; the objects only have to agree with the snapshot. */
module HashMap {
  import opened Sums

  /** C strings, compared with strcmp. */
  datatype Key = Key(text: string)

  class Entry {
    const key: Key
    var value: int
    var next: Entry?

    constructor (key: Key, value: int)
      ensures this.key == key && this.value == value
    {
      this.key, this.value, this.next := key, value, null;
    }
  }

  datatype Cell = Cell(value: int, next: Entry?)

  type Heap = map<Entry, Cell>
  type Chain = seq<Entry>

  // ---------- one bucket ----------

  function At(chain: Chain, i: nat): Entry? {
    if i < |chain| then chain[i] else null
  }

  ghost predicate LinkedAt(chain: Chain, heap: Heap, i: nat)
    requires i < |chain|
  {
    chain[i] in heap && heap[chain[i]].next == At(chain, i + 1)
  }

  /** The entries of a chain, in link order from `head` to null. */
  ghost predicate Linked(head: Entry?, chain: Chain, heap: Heap) {
    head == At(chain, 0) && forall i: nat :: i < |chain| ==> LinkedAt(chain, heap, i)
  }

  ghost predicate HasKey(chain: Chain, key: Key) {
    exists i :: 0 <= i < |chain| && chain[i].key == key
  }

  ghost predicate UniqueKeys(chain: Chain) {
    forall i, j :: 0 <= i < j < |chain| ==> chain[i].key != chain[j].key
  }

  /** The chain has each key of bucket b once with its value, and no other keys. */
  ghost predicate Filled(chain: Chain, b: nat, index: Key -> nat, heap: Heap, contents: map<Key, int>) {
    && UniqueKeys(chain)
    && (forall i :: 0 <= i < |chain| ==>
          && index(chain[i].key) == b && chain[i].key in contents
          && chain[i] in heap && heap[chain[i]].value == contents[chain[i].key])
    && (forall k :: k in contents && index(k) == b ==> HasKey(chain, k))
  }

  /** Bucket b of a table that assigns keys to buckets by `index`. */
  ghost predicate BucketOk(head: Entry?, chain: Chain, b: nat, index: Key -> nat, heap: Heap, contents: map<Key, int>) {
    Linked(head, chain, heap) && Filled(chain, b, index, heap, contents)
  }

  function Without(chain: Chain, n: nat): Chain
    requires n < |chain|
  {
    chain[..n] + chain[n + 1..]
  }

  /** The heap once the link that leads to the n-th entry skips it and it is freed. */
  function Relinked(chain: Chain, heap: Heap, n: nat): Heap
    requires n < |chain| && (n > 0 ==> chain[n - 1] in heap)
  {
    (if n == 0 then heap else heap[chain[n - 1] := heap[chain[n - 1]].(next := At(chain, n + 1))]) - {chain[n]}
  }

  lemma StillThere(chain: Chain, n: nat, i: nat)
    requires n < |chain| && i < |Without(chain, n)|
    ensures Without(chain, n)[i] == chain[if i < n then i else i + 1]
  {
  }

  lemma SkippedLink(head: Entry?, chain: Chain, heap: Heap, n: nat)
    requires Linked(head, chain, heap) && UniqueKeys(chain) && n < |chain|
    requires n > 0 ==> chain[n - 1] in heap
    ensures Linked(if n == 0 then At(chain, 1) else head, Without(chain, n), Relinked(chain, heap, n))
  {
    var left, heap' := Without(chain, n), Relinked(chain, heap, n);
    forall i: nat | i < |left| ensures LinkedAt(left, heap', i) {
      var j := if i < n then i else i + 1;
      assert LinkedAt(chain, heap, j);
      StillThere(chain, n, i);
      if i + 1 < |left| { StillThere(chain, n, i + 1); }
      assert chain[j].key != chain[n].key && (n > 0 && j != n - 1 ==> chain[j].key != chain[n - 1].key);
    }
  }

  lemma StillUnique(chain: Chain, n: nat)
    requires UniqueKeys(chain) && n < |chain|
    ensures UniqueKeys(Without(chain, n))
  {
  }

  lemma SkippedKey(chain: Chain, b: nat, index: Key -> nat, heap: Heap, contents: map<Key, int>, n: nat)
    requires Filled(chain, b, index, heap, contents) && n < |chain|
    ensures Filled(Without(chain, n), b, index, Relinked(chain, heap, n), contents - {chain[n].key})
  {
    var left, heap' := Without(chain, n), Relinked(chain, heap, n);
    StillUnique(chain, n);
    forall i | 0 <= i < |left|
      ensures left[i] in chain && left[i].key != chain[n].key
      ensures left[i] in heap' && heap'[left[i]].value == heap[left[i]].value
    {
      StillThere(chain, n, i);
    }
    forall k | k in contents && k != chain[n].key && index(k) == b ensures HasKey(left, k) {
      var j :| 0 <= j < |chain| && chain[j].key == k;
      StillThere(chain, n, if j < n then j else j - 1);
    }
  }

  lemma StoredLink(head: Entry?, chain: Chain, heap: Heap, e: Entry, value: int)
    requires Linked(head, chain, heap) && e in heap
    ensures Linked(head, chain, heap[e := heap[e].(value := value)])
  {
    var heap' := heap[e := heap[e].(value := value)];
    forall i: nat | i < |chain| ensures LinkedAt(chain, heap', i) {
      assert LinkedAt(chain, heap, i);
    }
  }

  lemma StoredKey(chain: Chain, b: nat, index: Key -> nat, heap: Heap, contents: map<Key, int>, n: nat, value: int)
    requires Filled(chain, b, index, heap, contents) && n < |chain|
    ensures var e := chain[n];
            Filled(chain, b, index, heap[e := heap[e].(value := value)], contents[e.key := value])
  {
    var e := chain[n];
    var heap', contents' := heap[e := heap[e].(value := value)], contents[e.key := value];
    forall i | 0 <= i < |chain|
      ensures chain[i].key in contents' && chain[i] in heap' && heap'[chain[i]].value == contents'[chain[i].key]
    {
      assert i != n ==> chain[i].key != e.key;
    }
    forall k | k in contents' && index(k) == b ensures HasKey(chain, k) {
      assert k != e.key ==> k in contents;
    }
  }

  lemma FrontLink(head: Entry?, chain: Chain, heap: Heap, e: Entry, value: int)
    requires Linked(head, chain, heap) && e !in chain
    ensures Linked(e, [e] + chain, heap[e := Cell(value, head)])
  {
    var after, heap' := [e] + chain, heap[e := Cell(value, head)];
    forall i: nat | i < |after| ensures LinkedAt(after, heap', i) {
      assert i > 0 ==> after[i] == chain[i - 1] && LinkedAt(chain, heap, i - 1);
    }
  }

  lemma FrontKey(chain: Chain, b: nat, index: Key -> nat, heap: Heap, contents: map<Key, int>, e: Entry, cell: Cell)
    requires Filled(chain, b, index, heap, contents) && index(e.key) == b && e.key !in contents
    ensures Filled([e] + chain, b, index, heap[e := cell], contents[e.key := cell.value])
  {
    var after := [e] + chain;
    forall i | 0 < i < |after| ensures after[i] == chain[i - 1] {}
    forall k | k in contents && index(k) == b ensures HasKey(after, k) {
      var j :| 0 <= j < |chain| && chain[j].key == k;
      assert after[j + 1].key == k;
    }
    assert after[0].key == e.key;
  }

  /** A bucket is untouched by what happens to the entries and keys of another one. */
  lemma OtherBucket(head: Entry?, chain: Chain, b: nat, index: Key -> nat, heap: Heap, contents: map<Key, int>,
                    heap': Heap, contents': map<Key, int>)
    requires BucketOk(head, chain, b, index, heap, contents)
    requires forall e :: e in chain ==> e in heap' && heap'[e] == heap[e]
    requires forall k :: index(k) == b ==>
               (k in contents <==> k in contents') && (k in contents ==> contents[k] == contents'[k])
    ensures BucketOk(head, chain, b, index, heap', contents')
  {
    forall i: nat | i < |chain| ensures LinkedAt(chain, heap', i) { assert LinkedAt(chain, heap, i); }
  }

  // ---------- all buckets ----------

  /** The buckets together hold exactly the map `contents`. */
  ghost predicate TableOk(heads: seq<Entry?>, chains: seq<Chain>, index: Key -> nat, heap: Heap,
                          contents: map<Key, int>) {
    && |heads| == |chains|
    && (forall k :: k in contents ==> index(k) < |chains|)
    && (forall b: nat {:trigger BucketOk(heads[b], chains[b], b, index, heap, contents)} ::
          b < |chains| ==> BucketOk(heads[b], chains[b], b, index, heap, contents))
  }

  function Length(chain: Chain): nat { |chain| }

  function Entries(chains: seq<Chain>): nat { SumBy(Length, chains) }

  lemma EntryInChain(heads: seq<Entry?>, chains: seq<Chain>, index: Key -> nat, heap: Heap, contents: map<Key, int>,
                     b: nat, n: nat)
    requires TableOk(heads, chains, index, heap, contents) && b < |chains| && n < |chains[b]|
    ensures chains[b][n] in heap && chains[b][n].key in contents
    ensures heap[chains[b][n]] == Cell(contents[chains[b][n].key], At(chains[b], n + 1))
    ensures n > 0 ==> chains[b][n - 1] in heap && chains[b][n - 1] != chains[b][n]
  {
    assert BucketOk(heads[b], chains[b], b, index, heap, contents);
    assert LinkedAt(chains[b], heap, n);
  }

  /** Taking the n-th entry out of chain b. */
  lemma TakenOut(heads: seq<Entry?>, chains: seq<Chain>, index: Key -> nat, heap: Heap, contents: map<Key, int>,
                 b: nat, n: nat)
    requires TableOk(heads, chains, index, heap, contents) && b < |chains| && n < |chains[b]|
    requires n > 0 ==> chains[b][n - 1] in heap
    ensures TableOk(if n == 0 then heads[b := At(chains[b], 1)] else heads, chains[b := Without(chains[b], n)],
                    index, Relinked(chains[b], heap, n), contents - {chains[b][n].key})
  {
    var e, heap' := chains[b][n], Relinked(chains[b], heap, n);
    var heads' := if n == 0 then heads[b := At(chains[b], 1)] else heads;
    var chains' := chains[b := Without(chains[b], n)];
    forall c: nat | c < |chains|
      ensures BucketOk(heads'[c], chains'[c], c, index, heap', contents - {e.key})
    {
      assert BucketOk(heads[c], chains[c], c, index, heap, contents);
      if c == b {
        SkippedLink(heads[b], chains[b], heap, n);
        SkippedKey(chains[b], b, index, heap, contents, n);
      } else {
        assert BucketOk(heads[b], chains[b], b, index, heap, contents);
        OtherBucket(heads[c], chains[c], c, index, heap, contents, heap', contents - {e.key});
      }
    }
  }

  lemma OneEntryLess(chains: seq<Chain>, b: nat, n: nat)
    requires b < |chains| && n < |chains[b]|
    ensures Entries(chains[b := Without(chains[b], n)]) == Entries(chains) - 1
  {
    SumUpdate(Length, chains, b, Without(chains[b], n));
  }

  lemma OneEntryMore(chains: seq<Chain>, b: nat, e: Entry)
    requires b < |chains|
    ensures Entries(chains[b := [e] + chains[b]]) == Entries(chains) + 1
  {
    SumUpdate(Length, chains, b, [e] + chains[b]);
  }

  /** A new value in the n-th entry of chain b. */
  lemma ValueStored(heads: seq<Entry?>, chains: seq<Chain>, index: Key -> nat, heap: Heap, contents: map<Key, int>,
                    b: nat, n: nat, value: int)
    requires TableOk(heads, chains, index, heap, contents) && b < |chains| && n < |chains[b]|
    requires chains[b][n] in heap && chains[b][n].key in contents
    ensures var e := chains[b][n];
            TableOk(heads, chains, index, heap[e := heap[e].(value := value)], contents[e.key := value])
  {
    var e := chains[b][n];
    var heap', contents' := heap[e := heap[e].(value := value)], contents[e.key := value];
    assert BucketOk(heads[b], chains[b], b, index, heap, contents);
    StoredLink(heads[b], chains[b], heap, e, value);
    StoredKey(chains[b], b, index, heap, contents, n, value);
    forall c: nat | c < |chains| && c != b
      ensures BucketOk(heads[c], chains[c], c, index, heap', contents')
    {
      assert BucketOk(heads[c], chains[c], c, index, heap, contents);
      OtherBucket(heads[c], chains[c], c, index, heap, contents, heap', contents');
    }
  }

  /** A new entry in front of its chain. */
  lemma PutInFront(heads: seq<Entry?>, chains: seq<Chain>, index: Key -> nat, heap: Heap, contents: map<Key, int>,
                   e: Entry, value: int)
    requires TableOk(heads, chains, index, heap, contents) && index(e.key) < |chains| && e.key !in contents
    ensures var b := index(e.key);
            TableOk(heads[b := e], chains[b := [e] + chains[b]], index, heap[e := Cell(value, heads[b])],
                    contents[e.key := value])
  {
    var b := index(e.key);
    var heads', chains' := heads[b := e], chains[b := [e] + chains[b]];
    var heap', contents' := heap[e := Cell(value, heads[b])], contents[e.key := value];
    forall c: nat | c < |chains|
      ensures BucketOk(heads'[c], chains'[c], c, index, heap', contents')
    {
      assert BucketOk(heads[c], chains[c], c, index, heap, contents);
      if c == b {
        FrontLink(heads[b], chains[b], heap, e, value);
        FrontKey(chains[b], b, index, heap, contents, e, Cell(value, heads[b]));
      } else {
        OtherBucket(heads[c], chains[c], c, index, heap, contents, heap', contents');
      }
    }
  }

  /** There are as many entries as keys. */
  lemma {:induction false} EntriesAreKeys(heads: seq<Entry?>, chains: seq<Chain>, index: Key -> nat,
                                          heap: Heap, contents: map<Key, int>)
    requires TableOk(heads, chains, index, heap, contents)
    ensures Entries(chains) == |contents|
    decreases Entries(chains)
  {
    if Entries(chains) == 0 {
      forall k | k in contents ensures false {
        assert BucketOk(heads[index(k)], chains[index(k)], index(k), index, heap, contents);
        SumAtLeast(Length, chains, index(k));
      }
      assert contents == map[];
    } else {
      var b := SumWitness(Length, chains);
      var key := chains[b][0].key;
      EntryInChain(heads, chains, index, heap, contents, b, 0);
      TakenOut(heads, chains, index, heap, contents, b, 0);
      OneEntryLess(chains, b, 0);
      assert (contents - {key}).Keys == contents.Keys - {key};
      EntriesAreKeys(heads[b := At(chains[b], 1)], chains[b := Without(chains[b], 0)], index,
                     Relinked(chains[b], heap, 0), contents - {key});
    }
  }

  // ---------- moving entries from one table to another ----------

  /** Memory the table does not use may change. */
  lemma OutsideTable(heads: seq<Entry?>, chains: seq<Chain>, index: Key -> nat, heap: Heap, contents: map<Key, int>,
                     e: Entry, cell: Cell)
    requires TableOk(heads, chains, index, heap, contents) && e !in heap
    ensures TableOk(heads, chains, index, heap[e := cell], contents)
  {
    forall c: nat | c < |chains| ensures BucketOk(heads[c], chains[c], c, index, heap[e := cell], contents) {
      assert BucketOk(heads[c], chains[c], c, index, heap, contents);
      OtherBucket(heads[c], chains[c], c, index, heap, contents, heap[e := cell], contents);
    }
  }

  /** The first entry of bucket b leaves its table. */
  lemma MovedOut(heads: seq<Entry?>, chains: seq<Chain>, index: Key -> nat, heap: Heap, left: map<Key, int>,
                 b: nat, next: Entry?)
    requires TableOk(heads, chains, index, heap, left) && b < |chains| && chains[b] != [] && chains[b][0] in heap
    ensures var e := chains[b][0];
            TableOk(heads[b := At(chains[b], 1)], chains[b := chains[b][1..]], index,
                    heap[e := heap[e].(next := next)], left - {e.key})
  {
    var e := chains[b][0];
    TakenOut(heads, chains, index, heap, left, b, 0);
    assert Without(chains[b], 0) == chains[b][1..];
    OutsideTable(heads[b := At(chains[b], 1)], chains[b := chains[b][1..]], index, heap - {e}, left - {e.key},
                 e, heap[e].(next := next));
    assert (heap - {e})[e := heap[e].(next := next)] == heap[e := heap[e].(next := next)];
  }

  lemma HeadOfChain(heads: seq<Entry?>, chains: seq<Chain>, index: Key -> nat, heap: Heap, contents: map<Key, int>,
                    b: nat)
    requires TableOk(heads, chains, index, heap, contents) && b < |chains|
    ensures heads[b] == At(chains[b], 0)
  {
    assert BucketOk(heads[b], chains[b], b, index, heap, contents);
  }

  lemma NoKeyHere(head: Entry?, chain: Chain, b: nat, index: Key -> nat, heap: Heap, contents: map<Key, int>, key: Key)
    requires BucketOk(head, chain, b, index, heap, contents) && head == null && key in contents
    ensures index(key) != b
  {
  }

  /** A table holds nothing just when its buckets are all empty. */
  lemma AllMoved(heads: seq<Entry?>, chains: seq<Chain>, index: Key -> nat, heap: Heap, left: map<Key, int>)
    requires TableOk(heads, chains, index, heap, left)
    requires forall b :: 0 <= b < |heads| ==> heads[b] == null
    ensures left == map[]
  {
    forall k | k in left ensures false {
      NoKeyHere(heads[index(k)], chains[index(k)], index(k), index, heap, left, k);
    }
    assert left == map[];
  }

  lemma EmptyTable(heads: seq<Entry?>, chains: seq<Chain>, index: Key -> nat, heap: Heap)
    requires |heads| == |chains|
    requires forall b :: 0 <= b < |heads| ==> heads[b] == null && chains[b] == []
    ensures TableOk(heads, chains, index, heap, map[])
  {
  }

  // ---------- what the operations do to the map and to the table size ----------

  datatype Table = Table(contents: map<Key, int>, buckets: nat)

  datatype Op =
    | Put(key: Key, value: int, canGrow: bool, canAllocate: bool)
    | Remove(key: Key)

  predicate MustGrow(t: Table) { (|t.contents| + 1) * 4 > t.buckets * 3 }

  /** The table after an operation, and what the operation returns. */
  function Apply(t: Table, op: Op): (Table, bool) {
    match op
    case Put(key, value, canGrow, canAllocate) =>
      if key in t.contents then (t.(contents := t.contents[key := value]), true)
      else if MustGrow(t) && !canGrow then (t, false)
      else
        var grown := if MustGrow(t) then t.(buckets := t.buckets * 2) else t;
        if canAllocate then (grown.(contents := t.contents[key := value]), true) else (grown, false)
    case Remove(key) => (t.(contents := t.contents - {key}), key in t.contents)
  }

  /** The table of a fresh map after a run of operations. */
  function Run(ops: seq<Op>): Table {
    if ops == [] then Table(map[], 8) else Apply(Run(ops[..|ops| - 1]), ops[|ops| - 1]).0
  }

  /** What the operations of a run return. */
  function Results(ops: seq<Op>): seq<bool> {
    if ops == [] then [] else
    var before := ops[..|ops| - 1];
    Results(before) + [Apply(Run(before), ops[|ops| - 1]).1]
  }

  // what an operation means, without saying how it is done

  /** Every key but one has what it had. */
  ghost predicate SameBut(before: map<Key, int>, after: map<Key, int>, key: Key) {
    forall k :: k != key ==> SameAt(before, after, k)
  }

  predicate SameAt(before: map<Key, int>, after: map<Key, int>, key: Key) {
    (key in before <==> key in after) && (key in before ==> after[key] == before[key])
  }

  /** A put stores its value exactly when the key is there, or there is room or can be
      made and the entry can be allocated; else it changes nothing. */
  lemma ApplyPut(t: Table, key: Key, value: int, canGrow: bool, canAllocate: bool)
    ensures var (after, ok) := Apply(t, Put(key, value, canGrow, canAllocate));
            && (ok <==> key in t.contents || ((!MustGrow(t) || canGrow) && canAllocate))
            && (ok ==> key in after.contents && after.contents[key] == value)
            && SameBut(t.contents, after.contents, key)
            && (!ok ==> after.contents == t.contents)
            && after.buckets == (if key !in t.contents && MustGrow(t) && canGrow then t.buckets * 2 else t.buckets)
  {
  }

  lemma ApplyRemove(t: Table, key: Key)
    ensures var (after, found) := Apply(t, Remove(key));
            && (found <==> key in t.contents) && key !in after.contents
            && SameBut(t.contents, after.contents, key) && after.buckets == t.buckets
  {
  }

  /** Operation i of a run is about this key and took effect. */
  predicate Changes(ops: seq<Op>, results: seq<bool>, key: Key, i: nat)
    requires i < |ops| == |results|
  {
    ops[i].key == key && (ops[i].Remove? || results[i])
  }

  /** It is the last one that did. */
  predicate LastChange(ops: seq<Op>, results: seq<bool>, key: Key, i: nat)
    requires |ops| == |results|
  {
    i < |ops| && Changes(ops, results, key, i) && forall j: nat :: i < j < |ops| ==> !Changes(ops, results, key, j)
  }

  /** What an operation that took effect leaves of its key. */
  predicate Left(op: Op, contents: map<Key, int>) {
    if op.Put? then op.key in contents && contents[op.key] == op.value else op.key !in contents
  }

  /** A key has the value of the last put of it that succeeded, unless it was never put or
      has been removed since: then it is not there. */
  ghost predicate Remembered(ops: seq<Op>, results: seq<bool>, key: Key, contents: map<Key, int>)
    requires |ops| == |results|
  {
    && (forall i: nat :: LastChange(ops, results, key, i) ==> Left(ops[i], contents))
    && ((forall i: nat :: i < |ops| ==> !Changes(ops, results, key, i)) ==> key !in contents)
  }

  lemma {:induction false} ResultsLength(ops: seq<Op>)
    ensures |Results(ops)| == |ops|
    decreases |ops|
  {
    if ops != [] { ResultsLength(ops[..|ops| - 1]); }
  }

  /** So it is after every run, with allocations failing anywhere. */
  lemma {:induction false} RunRemembers(ops: seq<Op>, key: Key)
    ensures |Results(ops)| == |ops| && Remembered(ops, Results(ops), key, Run(ops).contents)
    decreases |ops|
  {
    ResultsLength(ops);
    if ops != [] {
      var past, op := ops[..|ops| - 1], ops[|ops| - 1];
      var before, results := Run(past), Results(past);
      var (after, ok) := Apply(before, op);
      RunRemembers(past, key);
      StepChanges(before, op, key);
      OneMoreRemembered(past, results, op, ok, key, before.contents, after.contents);
      assert ops == past + [op] && Results(ops) == results + [ok] && Run(ops) == after;
    }
  }

  /** What one operation does at one key. */
  lemma StepChanges(t: Table, op: Op, key: Key)
    ensures var (after, ok) := Apply(t, op);
            if op.key == key && (op.Remove? || ok) then Left(op, after.contents)
            else SameAt(t.contents, after.contents, key)
  {
    match op
    case Put(k, value, canGrow, canAllocate) => ApplyPut(t, k, value, canGrow, canAllocate);
    case Remove(k) => ApplyRemove(t, k);
  }

  lemma OneMoreRemembered(ops: seq<Op>, results: seq<bool>, op: Op, ok: bool, key: Key,
                          before: map<Key, int>, after: map<Key, int>)
    requires |ops| == |results| && Remembered(ops, results, key, before)
    requires if op.key == key && (op.Remove? || ok) then Left(op, after) else SameAt(before, after, key)
    ensures Remembered(ops + [op], results + [ok], key, after)
  {
    var n, all, told := |ops|, ops + [op], results + [ok];
    forall i: nat | i < n ensures Changes(all, told, key, i) <==> Changes(ops, results, key, i) {}
    if Changes(all, told, key, n) {
      forall i: nat | LastChange(all, told, key, i) ensures i == n {}
    } else {
      forall i: nat | LastChange(all, told, key, i) ensures LastChange(ops, results, key, i) {
        assert i < n;
      }
    }
  }

  function Doubled(k: nat): nat { if k == 0 then 8 else 2 * Doubled(k - 1) }

  /** One operation keeps the load, and doubles the buckets at most once. */
  lemma ApplyLoad(t: Table, op: Op)
    requires |t.contents| * 4 <= t.buckets * 3 && t.buckets >= 8
    ensures var after := Apply(t, op).0;
            && |after.contents| * 4 <= after.buckets * 3
            && (after.buckets == t.buckets || after.buckets == 2 * t.buckets)
  {
    if op.Remove? {
      assert (t.contents - {op.key}).Keys == t.contents.Keys - {op.key};
    } else {
      assert t.contents[op.key := op.value].Keys == t.contents.Keys + {op.key};
    }
  }

  /** Over every run, with allocations failing anywhere: the bucket count is 8 doubled
      some number of times, at most once per operation, and never more than three
      quarters of the buckets' worth of entries are stored. */
  lemma {:induction false} LoadStaysLow(ops: seq<Op>)
    ensures exists k: nat :: k <= |ops| && Run(ops).buckets == Doubled(k)
    ensures |Run(ops).contents| * 4 <= Run(ops).buckets * 3
    decreases |ops|
  {
    if ops == [] {
      assert Run(ops).buckets == Doubled(0);
    } else {
      var before := Run(ops[..|ops| - 1]);
      LoadStaysLow(ops[..|ops| - 1]);
      var k: nat :| k <= |ops| - 1 && before.buckets == Doubled(k);
      BucketsPositive(k);
      ApplyLoad(before, ops[|ops| - 1]);
      assert Run(ops).buckets == Doubled(k) || Run(ops).buckets == Doubled(k + 1);
    }
  }

  lemma {:induction false} BucketsPositive(k: nat)
    ensures Doubled(k) >= 8
  {
    if k > 0 { BucketsPositive(k - 1); }
  }

  /** One doubling is always enough, and a put that fails leaves the map as it was. */
  lemma GrowthSuffices(ops: seq<Op>, op: Op)
    requires op.Put?
    ensures MustGrow(Run(ops)) ==> !MustGrow(Run(ops).(buckets := Run(ops).buckets * 2))
    ensures !Apply(Run(ops), op).1 ==> Apply(Run(ops), op).0.contents == Run(ops).contents
  {
    LoadStaysLow(ops);
    var k: nat :| Run(ops).buckets == Doubled(k);
    BucketsPositive(k);
  }

  /** Key k of `contents` is in exactly one of the two maps, with its value. */
  ghost predicate InOneOf(k: Key, left: map<Key, int>, moved: map<Key, int>, contents: map<Key, int>) {
    && (k in contents <==> k in left || k in moved)
    && !(k in left && k in moved)
    && (k in left ==> k in contents && left[k] == contents[k])
    && (k in moved ==> k in contents && moved[k] == contents[k])
  }

  ghost predicate Parted(left: map<Key, int>, moved: map<Key, int>, contents: map<Key, int>) {
    forall k {:trigger InOneOf(k, left, moved, contents)} :: InOneOf(k, left, moved, contents)
  }

  lemma KeyMoved(left: map<Key, int>, moved: map<Key, int>, contents: map<Key, int>, key: Key)
    requires Parted(left, moved, contents) && key in left
    ensures key !in moved && key in contents && left[key] == contents[key]
    ensures Parted(left - {key}, moved[key := left[key]], contents)
  {
    assert InOneOf(key, left, moved, contents);
    forall k {:trigger InOneOf(k, left - {key}, moved[key := left[key]], contents)}
      ensures InOneOf(k, left - {key}, moved[key := left[key]], contents)
    {
      assert InOneOf(k, left, moved, contents);
    }
  }

  lemma OneFewer(left: map<Key, int>, key: Key)
    requires key in left
    ensures |left - {key}| < |left|
  {
    assert (left - {key}).Keys == left.Keys - {key};
  }

  lemma NothingLeft(moved: map<Key, int>, contents: map<Key, int>)
    requires Parted(map[], moved, contents)
    ensures moved == contents
  {
    forall k | k in contents || k in moved ensures k in contents && k in moved && moved[k] == contents[k] {
      assert InOneOf(k, map[], moved, contents);
    }
  }

  /** Where map_grow stands: what is still to be moved, with the heads of its chains,
      and what the fresh table already holds. */
  datatype Progress = Progress(heads: seq<Entry?>, chains: seq<Chain>, left: map<Key, int>,
                               newChains: seq<Chain>, moved: map<Key, int>)

  /** The bucket of each key in a table of n buckets. */
  ghost function Slot(hash: Key -> nat, n: nat): Key -> nat
    requires n > 0
  {
    (key: Key) => hash(key) % n
  }

  /** Bucket b of n is being moved into an array twice as large, and `e` is the entry
      to move next. */
  ghost predicate Halfway(hash: Key -> nat, n: nat, buckets: seq<Entry?>, newBuckets: seq<Entry?>, heap: Heap,
                          contents: map<Key, int>, b: nat, e: Entry?, g: Progress) {
    && n > 0 && |buckets| == n == |g.heads| && |newBuckets| == n * 2
    && TableOk(g.heads, g.chains, Slot(hash, n), heap, g.left)
    && TableOk(newBuckets, g.newChains, Slot(hash, n * 2), heap, g.moved)
    && Parted(g.left, g.moved, contents)
    && (forall c :: 0 <= c < n ==> g.heads[c] == if c < b then null else if c == b then e else buckets[c])
  }

  /** The progress after entry `e` is moved. */
  ghost function Moved(g: Progress, b: nat, e: Entry, cell: Cell, i: nat): Progress
    requires b < |g.heads| && b < |g.chains| && g.chains[b] != [] && i < |g.newChains|
  {
    Progress(g.heads[b := cell.next], g.chains[b := g.chains[b][1..]], g.left - {e.key},
             g.newChains[i := [e] + g.newChains[i]], g.moved[e.key := cell.value])
  }

  lemma NextToMove(hash: Key -> nat, n: nat, buckets: seq<Entry?>, newBuckets: seq<Entry?>, heap: Heap,
                   contents: map<Key, int>, b: nat, e: Entry, g: Progress)
    requires Halfway(hash, n, buckets, newBuckets, heap, contents, b, e, g) && b < n
    ensures b < |g.chains| && g.chains[b] != [] && g.chains[b][0] == e && e in heap
    ensures e.key in g.left && heap[e] == Cell(g.left[e.key], At(g.chains[b], 1))
    ensures |g.newChains| == |newBuckets|
    ensures |g.left - {e.key}| < |g.left|
  {
    HeadOfChain(g.heads, g.chains, Slot(hash, n), heap, g.left, b);
    EntryInChain(g.heads, g.chains, Slot(hash, n), heap, g.left, b, 0);
    OneFewer(g.left, e.key);
  }

  lemma MoveStep(hash: Key -> nat, n: nat, buckets: seq<Entry?>, newBuckets: seq<Entry?>, heap: Heap,
                 contents: map<Key, int>, b: nat, e: Entry, g: Progress, i: nat)
    requires Halfway(hash, n, buckets, newBuckets, heap, contents, b, e, g)
    requires b < n && b < |g.chains| && g.chains[b] != [] && g.chains[b][0] == e && e in heap
    requires e.key in g.left && heap[e] == Cell(g.left[e.key], At(g.chains[b], 1))
    requires |g.newChains| == |newBuckets| && i == Slot(hash, n * 2)(e.key) && i < |newBuckets|
    ensures Halfway(hash, n, buckets, newBuckets[i := e], heap[e := Cell(heap[e].value, newBuckets[i])], contents,
                    b, heap[e].next, Moved(g, b, e, heap[e], i))
  {
    KeyMoved(g.left, g.moved, contents, e.key);
    MovedOut(g.heads, g.chains, Slot(hash, n), heap, g.left, b, newBuckets[i]);
    PutInFront(newBuckets, g.newChains, Slot(hash, n * 2), heap, g.moved, e, heap[e].value);
  }

  /** One entry moved: the progress after it. */
  lemma MoveOne(hash: Key -> nat, n: nat, buckets: seq<Entry?>, newBuckets: seq<Entry?>, heap: Heap,
                contents: map<Key, int>, b: nat, e: Entry, g: Progress, i: nat) returns (g': Progress)
    requires Halfway(hash, n, buckets, newBuckets, heap, contents, b, e, g) && b < n
    requires i == hash(e.key) % (n * 2)
    ensures e in heap && i < |newBuckets| && |g'.left| < |g.left|
    ensures Halfway(hash, n, buckets, newBuckets[i := e], heap[e := Cell(heap[e].value, newBuckets[i])], contents,
                    b, heap[e].next, g')
  {
    NextToMove(hash, n, buckets, newBuckets, heap, contents, b, e, g);
    MoveStep(hash, n, buckets, newBuckets, heap, contents, b, e, g, i);
    g' := Moved(g, b, e, heap[e], i);
  }

  lemma StartMoving(hash: Key -> nat, n: nat, buckets: seq<Entry?>, newBuckets: seq<Entry?>, heap: Heap,
                    contents: map<Key, int>, g: Progress)
    requires n > 0 && |buckets| == n && |newBuckets| == n * 2 == |g.newChains|
    requires TableOk(buckets, g.chains, Slot(hash, n), heap, contents)
    requires forall b :: 0 <= b < |newBuckets| ==> newBuckets[b] == null && g.newChains[b] == []
    requires g.heads == buckets && g.left == contents && g.moved == map[]
    ensures Halfway(hash, n, buckets, newBuckets, heap, contents, 0, buckets[0], g)
  {
    EmptyTable(newBuckets, g.newChains, Slot(hash, n * 2), heap);
    forall k {:trigger InOneOf(k, contents, map[], contents)} ensures InOneOf(k, contents, map[], contents) {}
  }

  lemma NextBucket(hash: Key -> nat, n: nat, buckets: seq<Entry?>, newBuckets: seq<Entry?>, heap: Heap,
                   contents: map<Key, int>, b: nat, g: Progress)
    requires Halfway(hash, n, buckets, newBuckets, heap, contents, b, null, g) && b < n
    ensures Halfway(hash, n, buckets, newBuckets, heap, contents, b + 1,
                    if b + 1 < n then buckets[b + 1] else null, g)
  {
  }

  lemma DoneMoving(hash: Key -> nat, n: nat, buckets: seq<Entry?>, newBuckets: seq<Entry?>, heap: Heap,
                   contents: map<Key, int>, g: Progress)
    requires Halfway(hash, n, buckets, newBuckets, heap, contents, n, null, g)
    ensures TableOk(newBuckets, g.newChains, Slot(hash, n * 2), heap, contents)
  {
    AllMoved(g.heads, g.chains, Slot(hash, n), heap, g.left);
    NothingLeft(g.moved, contents);
  }

  // ---------- the map ----------

  class Map {
    const hash: Key -> nat
    var buckets: array<Entry?>
    var bucketCount: nat
    var count: nat
    ghost var chains: seq<Chain>
    ghost var heap: Heap
    ghost var contents: map<Key, int>

    ghost predicate Valid()
      reads this, buckets, heap.Keys
    {
      && bucketCount > 0 && buckets.Length == bucketCount
      && TableOk(buckets[..], chains, Slot(hash, bucketCount), heap, contents)
      && count == Entries(chains)
      && Agreement()
    }

    ghost function View(): Table
      reads this
    {
      Table(contents, bucketCount)
    }

    /** map_create, when its allocations succeed. */
    constructor (hash: Key -> nat)
      ensures Valid() && fresh(buckets) && heap == map[] && this.hash == hash
      ensures contents == map[] && bucketCount == 8
    {
      this.hash := hash;
      buckets := new Entry?[8](_ => null);
      bucketCount, count := 8, 0;
      chains, heap, contents := seq(8, _ => []), map[], map[];
      new;
      SumAtMost(Length, chains, 0);
    }

    /** The search loop of put, get and remove: where the key is in its chain. */
    method Seek(key: Key) returns (prev: Entry?, e: Entry?, ghost n: nat)
      requires Valid()
      ensures var chain := chains[hash(key) % bucketCount];
              && n <= |chain| && e == At(chain, n)
              && prev == (if n == 0 then null else chain[n - 1])
              && (e != null ==> e.key == key)
      ensures (e != null) == (key in contents)
    {
      var b := hash(key) % bucketCount;
      ghost var chain := chains[b];
      assert BucketOk(buckets[..][b], chain, b, Slot(hash, bucketCount), heap, contents);
      prev, e, n := null, buckets[b], 0;
      while e != null && e.key != key
        invariant n <= |chain| && e == At(chain, n)
        invariant prev == if n == 0 then null else chain[n - 1]
        invariant forall i :: 0 <= i < n ==> chain[i].key != key
        decreases |chain| - n
      {
        assert LinkedAt(chain, heap, n);
        prev, e := e, e.next;
        n := n + 1;
      }
      assert Slot(hash, bucketCount)(key) == b;
    }

    method Get(key: Key, steps: nat) returns (found: bool, value: int, steps': nat)
      requires Valid()
      ensures found == (key in contents)
      ensures found ==> value == contents[key]
      ensures var chain := chains[hash(key) % bucketCount];
              if found then steps < steps' <= steps + |chain| && chain[steps' - steps - 1].key == key
              else steps' == steps + |chain|
    {
      var b := hash(key) % bucketCount;
      ghost var chain := chains[b];
      assert BucketOk(buckets[..][b], chain, b, Slot(hash, bucketCount), heap, contents);
      assert Slot(hash, bucketCount)(key) == b;
      var e := buckets[b];
      steps' := steps;
      ghost var n := 0;
      while e != null
        invariant n <= |chain| && steps' == steps + n && e == At(chain, n)
        invariant forall i :: 0 <= i < n ==> chain[i].key != key
        decreases |chain| - n
      {
        assert LinkedAt(chain, heap, n);
        steps' := steps' + 1;
        if e.key == key {
          return true, e.value, steps';
        }
        e := e.next;
        n := n + 1;
      }
      return false, 0, steps';
    }

    /** The unlinking in map_remove of the n-th entry of chain b; the program's `link`
        is the bucket slot while prev is null, and &prev->next after. */
    method TakeOut(b: nat, prev: Entry?, e: Entry, ghost n: nat)
      requires Valid() && b < bucketCount && n < |chains[b]| && e == chains[b][n]
      requires prev == if n == 0 then null else chains[b][n - 1]
      modifies this`chains, this`contents, this`heap, this`count, buckets, heap.Keys
      ensures Valid() && heap.Keys == old(heap.Keys) - {e} && contents == old(contents) - {e.key}
    {
      EntryInChain(buckets[..], chains, Slot(hash, bucketCount), heap, contents, b, n);
      TakenOut(buckets[..], chains, Slot(hash, bucketCount), heap, contents, b, n);
      ghost var chains', heap' := chains[b := Without(chains[b], n)], Relinked(chains[b], heap, n);
      OneEntryLess(chains, b, n);
      ghost var heads := if n == 0 then buckets[..][b := At(chains[b], 1)] else buckets[..];
      count := count - 1;
      assert count == Entries(chains');
      if prev == null { buckets[b] := e.next; } else { prev.next := e.next; }
      assert buckets[..] == heads;
      forall x | x in heap' ensures heap'[x] == Cell(x.value, x.next) {
        assert x in heap;
      }
      heap, chains, contents := heap', chains', contents - {e.key};
    }

    method Remove(key: Key) returns (found: bool)
      requires Valid()
      modifies this, buckets, heap.Keys
      ensures Valid() && buckets == old(buckets) && heap.Keys <= old(heap.Keys)
      ensures var (table, result) := Apply(old(View()), Op.Remove(key));
              View() == table && found == result
      ensures found == (key in old(contents)) && key !in contents && SameBut(old(contents), contents, key)
    {
      ApplyRemove(View(), key);
      var prev, e, n := Seek(key);
      found := e != null;
      if found { TakeOut(hash(key) % bucketCount, prev, e, n); } else { DropNone(contents, key); }
    }

    /** map_put; the flags say whether its allocations succeed. */
    method Put(key: Key, value: int, canGrow: bool, canAllocate: bool) returns (ok: bool)
      requires Valid()
      modifies this, buckets, heap.Keys
      ensures Valid() && fresh(heap.Keys - old(heap.Keys)) && (buckets == old(buckets) || fresh(buckets))
      ensures var (table, result) := Apply(old(View()), Op.Put(key, value, canGrow, canAllocate));
              View() == table && ok == result
      ensures ok <==> key in old(contents) ||
                      (((old(count) + 1) * 4 <= old(bucketCount) * 3 || canGrow) && canAllocate)
      ensures ok ==> key in contents && contents[key] == value
      ensures SameBut(old(contents), contents, key) && (!ok ==> contents == old(contents))
    {
      ApplyPut(View(), key, value, canGrow, canAllocate);
      EntriesAreKeys(buckets[..], chains, Slot(hash, bucketCount), heap, contents);
      var b := hash(key) % bucketCount;
      var prev, found, n := Seek(key);
      if found != null {
        Replace(b, found, n, value);
        return true;
      }
      if (count + 1) * 4 > bucketCount * 3 {
        if !canGrow { return false; }
        Grow();
        b := hash(key) % bucketCount;
      }
      if !canAllocate { return false; }
      Insert(b, key, value);
      return true;
    }

    method Replace(b: nat, e: Entry, ghost n: nat, value: int)
      requires Valid() && b < bucketCount && n < |chains[b]| && e == chains[b][n]
      modifies this`heap, this`contents, heap.Keys
      ensures Valid() && heap.Keys == old(heap.Keys) && contents == old(contents)[e.key := value]
    {
      EntryInChain(buckets[..], chains, Slot(hash, bucketCount), heap, contents, b, n);
      ValueStored(buckets[..], chains, Slot(hash, bucketCount), heap, contents, b, n, value);
      e.value := value;
      heap, contents := heap[e := heap[e].(value := value)], contents[e.key := value];
    }

    /** The end of map_put: a new entry in front of its bucket. */
    method Insert(b: nat, key: Key, value: int)
      requires Valid() && key !in contents && b == hash(key) % bucketCount
      modifies this, buckets
      ensures Valid() && fresh(heap.Keys - old(heap.Keys)) && buckets == old(buckets)
      ensures contents == old(contents)[key := value] && bucketCount == old(bucketCount)
    {
      var e := new Entry(key, value);
      ghost var heads := buckets[..];
      assert Slot(hash, bucketCount)(key) == b;
      PutInFront(heads, chains, Slot(hash, bucketCount), heap, contents, e, value);
      OneEntryMore(chains, b, e);
      LinkFront(buckets, b, e);
      chains := chains[b := [e] + chains[b]];
      contents, count := contents[key := value], count + 1;
    }

    /** One turn of map_grow's inner loop: relink one entry into the fresh array. */
    method MoveEntry(newBuckets: array<Entry?>, b: nat, e: Entry, ghost g: Progress)
      returns (next: Entry?, ghost g': Progress)
      requires bucketCount > 0 && newBuckets != buckets && b < bucketCount && Agreement()
      requires Halfway(hash, bucketCount, buckets[..], newBuckets[..], heap, contents, b, e, g)
      modifies this`heap, newBuckets, heap.Keys
      ensures Agreement() && heap.Keys == old(heap.Keys) && |g'.left| < |g.left|
      ensures Halfway(hash, bucketCount, buckets[..], newBuckets[..], heap, contents, b, next, g')
    {
      var i := hash(e.key) % (bucketCount * 2);
      g' := MoveOne(hash, bucketCount, buckets[..], newBuckets[..], heap, contents, b, e, g, i);
      next := e.next;
      LinkFront(newBuckets, i, e);
    }

    method MoveChain(newBuckets: array<Entry?>, b: nat, ghost g: Progress) returns (ghost g': Progress)
      requires bucketCount > 0 && newBuckets != buckets && b < bucketCount == buckets.Length && Agreement()
      requires Halfway(hash, bucketCount, buckets[..], newBuckets[..], heap, contents, b, buckets[b], g)
      modifies this`heap, newBuckets, heap.Keys
      ensures Agreement() && heap.Keys == old(heap.Keys)
      ensures Halfway(hash, bucketCount, buckets[..], newBuckets[..], heap, contents, b + 1,
                      if b + 1 < bucketCount then buckets[b + 1] else null, g')
    {
      var e := buckets[b];
      g' := g;
      while e != null
        invariant Agreement() && heap.Keys == old(heap.Keys)
        invariant Halfway(hash, bucketCount, buckets[..], newBuckets[..], heap, contents, b, e, g')
        decreases |g'.left|
      {
        e, g' := MoveEntry(newBuckets, b, e, g');
      }
      NextBucket(hash, bucketCount, buckets[..], newBuckets[..], heap, contents, b, g');
    }

    method MoveAll(newBuckets: array<Entry?>, ghost g: Progress) returns (ghost g': Progress)
      requires bucketCount > 0 && newBuckets != buckets && bucketCount == buckets.Length && Agreement()
      requires Halfway(hash, bucketCount, buckets[..], newBuckets[..], heap, contents, 0, buckets[0], g)
      modifies this`heap, newBuckets, heap.Keys
      ensures Agreement() && heap.Keys == old(heap.Keys)
      ensures Halfway(hash, bucketCount, buckets[..], newBuckets[..], heap, contents, bucketCount, null, g')
    {
      g' := g;
      for b := 0 to bucketCount
        invariant Agreement() && heap.Keys == old(heap.Keys)
        invariant Halfway(hash, bucketCount, buckets[..], newBuckets[..], heap, contents, b,
                          if b < bucketCount then buckets[b] else null, g')
      {
        g' := MoveChain(newBuckets, b, g');
      }
    }

    /** map_grow, when its allocation succeeds: every entry is relinked, none copied. */
    method Grow()
      requires Valid()
      modifies this, heap.Keys
      ensures Valid() && heap.Keys == old(heap.Keys) && fresh(buckets)
      ensures contents == old(contents) && bucketCount == old(bucketCount) * 2
    {
      var n, newBuckets := bucketCount, new Entry?[bucketCount * 2](_ => null);
      ghost var from := buckets[..];
      EntriesAreKeys(from, chains, Slot(hash, n), heap, contents);
      ghost var g := Progress(from, chains, contents, seq(n * 2, _ => []), map[]);
      StartMoving(hash, n, from, newBuckets[..], heap, contents, g);
      g := MoveAll(newBuckets, g);
      DoneMoving(hash, n, from, newBuckets[..], heap, contents, g);
      EntriesAreKeys(newBuckets[..], g.newChains, Slot(hash, n * 2), heap, contents);
      buckets, bucketCount, chains := newBuckets, n * 2, g.newChains;
    }

    /** Link an entry, new or relinked, in front of a bucket. */
    method LinkFront(buckets: array<Entry?>, b: nat, e: Entry)
      requires Agreement() && b < buckets.Length
      modifies this`heap, buckets, e`next
      ensures Agreement() && heap == old(heap)[e := Cell(e.value, old(buckets[b]))]
      ensures buckets[..] == old(buckets[..])[b := e]
    {
      e.next := buckets[b];
      buckets[b] := e;
      heap := heap[e := Cell(e.value, e.next)];
    }

    method Perform(op: Op) returns (result: bool)
      requires Valid()
      modifies this, buckets, heap.Keys
      ensures Valid() && fresh(heap.Keys - old(heap.Keys)) && (buckets == old(buckets) || fresh(buckets))
      ensures (View(), result) == Apply(old(View()), op)
    {
      match op
      case Put(key, value, canGrow, canAllocate) => result := Put(key, value, canGrow, canAllocate);
      case Remove(key) => result := Remove(key);
    }

    /** Any run of operations on a fresh map: the map and the results are the abstract
        ones, count is the number of keys, and the load never exceeds three quarters. */
    method PerformAll(ops: seq<Op>) returns (results: seq<bool>)
      requires Valid() && View() == Table(map[], 8)
      modifies this, buckets, heap.Keys
      ensures Valid() && View() == Run(ops) && results == Results(ops)
      ensures count == |contents| && count * 4 <= bucketCount * 3
      ensures |results| == |ops| && forall k :: Remembered(ops, results, k, contents)
    {
      results := [];
      for i := 0 to |ops|
        invariant Valid() && fresh(heap.Keys - old(heap.Keys)) && (buckets == old(buckets) || fresh(buckets))
        invariant View() == Run(ops[..i]) && results == Results(ops[..i])
      {
        assert ops[..i + 1][..i] == ops[..i];
        var result := Perform(ops[i]);
        results := results + [result];
      }
      assert ops[..|ops|] == ops;
      EntriesAreKeys(buckets[..], chains, Slot(hash, bucketCount), heap, contents);
      LoadStaysLow(ops);
      ResultsLength(ops);
      forall k ensures Remembered(ops, results, k, contents) { RunRemembers(ops, k); }
    }

    /** The objects are as the snapshot has them. */
    ghost predicate Agreement()
      reads this`heap, heap.Keys
    {
      forall e :: e in heap ==> heap[e] == Cell(e.value, e.next)
    }
  }

  lemma DropNone(contents: map<Key, int>, key: Key)
    requires key !in contents
    ensures contents - {key} == contents
  {
  }
}
