/** The singly linked list of lists.c with its tail pointer, and the stack and queue
    made from it. */
module LinkedList {

  class Node {
    const value: int
    var next: Node?

    constructor (value: int)
      ensures this.value == value && next == null
    {
      this.value, next := value, null;
    }
  }

  // ---------- sequences ----------

  function Reversed<T>(s: seq<T>): seq<T> {
    if s == [] then [] else Reversed(s[1..]) + [s[0]]
  }

  lemma {:induction false} ReversedIndex<T>(s: seq<T>, k: nat)
    requires k < |s|
    ensures |Reversed(s)| == |s| && Reversed(s)[k] == s[|s| - 1 - k]
    decreases |s|
  {
    ReversedLength(s[1..]);
    if k < |s| - 1 { ReversedIndex(s[1..], k); }
  }

  lemma {:induction false} ReversedLength<T>(s: seq<T>)
    ensures |Reversed(s)| == |s|
  {
    if s != [] { ReversedLength(s[1..]); }
  }

  /** Reversing twice gives the list back. */
  lemma ReversedTwice<T>(s: seq<T>)
    ensures Reversed(Reversed(s)) == s
  {
    ReversedLength(s);
    ReversedLength(Reversed(s));
    forall k | 0 <= k < |s| ensures Reversed(Reversed(s))[k] == s[k] {
      ReversedIndex(Reversed(s), k);
      ReversedIndex(s, |s| - 1 - k);
    }
  }

  function Values(nodes: seq<Node>): (v: seq<int>)
    ensures |v| == |nodes| && forall i :: 0 <= i < |v| ==> v[i] == nodes[i].value
  {
    seq(|nodes|, i requires 0 <= i < |nodes| => nodes[i].value)
  }

  /** Without the first occurrence of a value. */
  function RemoveFirst(s: seq<int>, value: int): seq<int> {
    if s == [] then [] else if s[0] == value then s[1..] else [s[0]] + RemoveFirst(s[1..], value)
  }

  lemma {:induction false} RemoveFirstAt(s: seq<int>, value: int, n: nat)
    requires n < |s| && s[n] == value && value !in s[..n]
    ensures RemoveFirst(s, value) == s[..n] + s[n + 1..]
    decreases |s|
  {
    if n > 0 {
      assert s[0] in s[..n];
      assert s[1..][..n - 1] == s[..n][1..];
      RemoveFirstAt(s[1..], value, n - 1);
      assert s[1..][n..] == s[n + 1..];
    }
  }

  lemma {:induction false} RemoveFirstNone(s: seq<int>, value: int)
    requires value !in s
    ensures RemoveFirst(s, value) == s
    decreases |s|
  {
    if s != [] { RemoveFirstNone(s[1..], value); }
  }

  lemma NothingRemoved(nodes: seq<Node>, value: int)
    requires forall i :: 0 <= i < |nodes| ==> nodes[i].value != value
    ensures value !in Values(nodes) && RemoveFirst(Values(nodes), value) == Values(nodes)
  {
    RemoveFirstNone(Values(nodes), value);
  }

  lemma OneRemoved(nodes: seq<Node>, value: int, k: nat)
    requires k < |nodes| && nodes[k].value == value
    requires forall i :: 0 <= i < k ==> nodes[i].value != value
    ensures value in Values(nodes)
    ensures Values(nodes[..k] + nodes[k + 1..]) == RemoveFirst(Values(nodes), value)
    ensures forall n :: n in nodes[..k] + nodes[k + 1..] ==> n in nodes
  {
    var values := Values(nodes);
    assert values[k] == value;
    RemoveFirstAt(values, value, k);
    assert Values(nodes[..k] + nodes[k + 1..]) == values[..k] + values[k + 1..];
  }

  // ---------- the list ----------

  ghost predicate Distinct(nodes: seq<Node>) {
    forall i, j :: 0 <= i < j < |nodes| ==> nodes[i] != nodes[j]
  }

  class List {
    var head: Node?
    var tail: Node?
    var count: nat
    ghost var nodes: seq<Node>

    /** The links lead through `nodes`, once each, from head to tail. */
    ghost predicate Valid()
      reads this, nodes
    {
      && Distinct(nodes)
      && head == (if nodes == [] then null else nodes[0])
      && tail == (if nodes == [] then null else nodes[|nodes| - 1])
      && (forall i {:trigger nodes[i].next} :: 0 <= i < |nodes| ==>
            nodes[i].next == if i + 1 < |nodes| then nodes[i + 1] else null)
      && count == |nodes|
    }

    constructor ()
      ensures Valid() && nodes == []
    {
      head, tail, count, nodes := null, null, 0, [];
    }

    method PushFront(value: int, canAllocate: bool) returns (ok: bool)
      requires Valid()
      modifies this
      ensures Valid() && ok == canAllocate
      ensures if ok then Values(nodes) == [value] + Values(old(nodes)) else nodes == old(nodes)
      ensures fresh((set n | n in nodes) - old(set n | n in nodes))
    {
      if !canAllocate { return false; }
      var n := new Node(value);
      n.next := head;
      head := n;
      if tail == null { tail := n; }
      count := count + 1;
      nodes := [n] + nodes;
      return true;
    }

    method PushBack(value: int, canAllocate: bool) returns (ok: bool)
      requires Valid()
      modifies this, nodes
      ensures Valid() && ok == canAllocate
      ensures if ok then Values(nodes) == Values(old(nodes)) + [value] else nodes == old(nodes)
      ensures fresh((set n | n in nodes) - old(set n | n in nodes))
    {
      if !canAllocate { return false; }
      var n := new Node(value);
      if tail != null { tail.next := n; } else { head := n; }
      tail := n;
      count := count + 1;
      nodes := nodes + [n];
      return true;
    }

    /** The search loop of list_remove. The program's `link` is the head while prev is
        null, and &prev->next after that. */
    method Find(value: int) returns (prev: Node?, cur: Node?, ghost k: nat)
      requires Valid()
      ensures k <= |nodes| && cur == (if k < |nodes| then nodes[k] else null)
      ensures prev == if k == 0 then null else nodes[k - 1]
      ensures (forall i :: 0 <= i < k ==> nodes[i].value != value) && (cur != null ==> cur.value == value)
    {
      prev, cur, k := null, head, 0;
      while cur != null && cur.value != value
        invariant k <= |nodes|
        invariant cur == if k < |nodes| then nodes[k] else null
        invariant prev == if k == 0 then null else nodes[k - 1]
        invariant forall i :: 0 <= i < k ==> nodes[i].value != value
        decreases |nodes| - k
      {
        prev, cur := cur, cur.next;
        k := k + 1;
      }
    }

    /** list_remove: the node before the link is the new tail when the last node goes. */
    method Remove(value: int) returns (found: bool)
      requires Valid()
      modifies this, nodes
      ensures Valid() && found == (value in Values(old(nodes)))
      ensures Values(nodes) == RemoveFirst(Values(old(nodes)), value)
      ensures forall n :: n in nodes ==> n in old(nodes)
    {
      var prev, cur, k := Find(value);
      if cur == null {
        NothingRemoved(nodes, value);
        return false;
      }
      OneRemoved(nodes, value, k);
      Unlink(prev, cur, k);
      return true;
    }

    /** The unlinking in list_remove, with the repair of tail. */
    method Unlink(prev: Node?, dead: Node, ghost k: nat)
      requires Valid() && k < |nodes| && dead == nodes[k] && prev == if k == 0 then null else nodes[k - 1]
      modifies this, nodes
      ensures Valid() && nodes == old(nodes)[..k] + old(nodes)[k + 1..]
    {
      ghost var left := nodes[..k] + nodes[k + 1..];
      forall i | 0 <= i < |left| ensures left[i] == nodes[if i < k then i else i + 1] {}
      var next := dead.next;
      if prev == null { head := next; } else { prev.next := next; }
      if dead == tail { tail := prev; }
      count := count - 1;
      nodes := left;
    }

    /** list_reverse: the same nodes, linked the other way. */
    method Reverse()
      requires Valid()
      modifies this, nodes
      ensures Valid() && nodes == Reversed(old(nodes))
    {
      ghost var was, k := nodes, 0;
      var prev: Node?, curr := null, head;
      tail := head;
      while curr != null
        invariant nodes == was && count == |was| && k <= |was|
        invariant tail == if was == [] then null else was[0]
        invariant curr == if k < |was| then was[k] else null
        invariant prev == if k == 0 then null else was[k - 1]
        invariant forall i {:trigger was[i].next} :: 0 <= i < k ==> was[i].next == if i == 0 then null else was[i - 1]
        invariant forall i {:trigger was[i].next} :: k <= i < |was| ==>
                    was[i].next == if i + 1 < |was| then was[i + 1] else null
        decreases |was| - k
      {
        var next := curr.next;
        curr.next := prev;
        prev := curr;
        curr := next;
        k := k + 1;
      }
      head := prev;
      nodes := Reversed(was);
      ReversedLength(was);
      forall i | 0 <= i < |was| ensures nodes[i] == was[|was| - 1 - i] { ReversedIndex(was, i); }
    }

    /** stack_pop and queue_dequeue: both take the head. */
    method PopFront() returns (ok: bool, value: int)
      requires Valid()
      modifies this
      ensures Valid() && ok == (old(nodes) != [])
      ensures if ok then old(nodes) == [old(nodes)[0]] + nodes && value == old(nodes)[0].value
              else nodes == old(nodes)
    {
      if head == null { return false, 0; }
      value := head.value;
      head := head.next;
      if head == null { tail := null; }
      count := count - 1;
      nodes := nodes[1..];
      ok := true;
    }
  }

  // ---------- stack and queue ----------

  /** A push whose allocation fails leaves things as they are. */
  datatype Action = Push(value: int, canAllocate: bool) | Pop

  /** One action on the contents and the values popped so far, when pushes go to the
      front. */
  function OnStack(held: seq<int>, popped: seq<int>, a: Action): (seq<int>, seq<int>) {
    match a
    case Push(v, canAllocate) => (if canAllocate then [v] + held else held, popped)
    case Pop => if held == [] then (held, popped) else (held[1..], popped + [held[0]])
  }

  /** The same when pushes go to the back. */
  function OnQueue(held: seq<int>, popped: seq<int>, a: Action): (seq<int>, seq<int>) {
    match a
    case Push(v, canAllocate) => (if canAllocate then held + [v] else held, popped)
    case Pop => if held == [] then (held, popped) else (held[1..], popped + [held[0]])
  }

  function Stack(actions: seq<Action>): (seq<int>, seq<int>) {
    if actions == [] then ([], []) else
    var (held, popped) := Stack(actions[..|actions| - 1]);
    OnStack(held, popped, actions[|actions| - 1])
  }

  function Queue(actions: seq<Action>): (seq<int>, seq<int>) {
    if actions == [] then ([], []) else
    var (held, popped) := Queue(actions[..|actions| - 1]);
    OnQueue(held, popped, actions[|actions| - 1])
  }

  /** stack_pop and queue_dequeue, noting the value. */
  method Take(l: List, popped: seq<int>) returns (popped': seq<int>)
    requires l.Valid()
    modifies l
    ensures l.Valid() && forall n :: n in l.nodes ==> n in old(l.nodes)
    ensures var held := Values(old(l.nodes));
            (Values(l.nodes), popped') == if held == [] then (held, popped) else (held[1..], popped + [held[0]])
  {
    ghost var nodes := l.nodes;
    var ok, v := l.PopFront();
    popped' := if ok then popped + [v] else popped;
    if ok {
      assert nodes[1..] == l.nodes && Values(nodes)[1..] == Values(l.nodes);
    }
  }

  method StackAction(l: List, popped: seq<int>, a: Action) returns (popped': seq<int>)
    requires l.Valid()
    modifies l
    ensures l.Valid() && forall n :: n in l.nodes ==> n in old(l.nodes) || fresh(n)
    ensures (Values(l.nodes), popped') == OnStack(Values(old(l.nodes)), popped, a)
  {
    match a {
      case Push(v, canAllocate) =>
        var _ := l.PushFront(v, canAllocate);
        popped' := popped;
      case Pop => popped' := Take(l, popped);
    }
  }

  lemma StackMore(actions: seq<Action>, i: nat)
    requires i < |actions|
    ensures var (held, popped) := Stack(actions[..i]); Stack(actions[..i + 1]) == OnStack(held, popped, actions[i])
  {
    assert actions[..i + 1][..i] == actions[..i];
  }

  /** Any run on an empty list used as a stack. */
  method RunStack(l: List, actions: seq<Action>) returns (popped: seq<int>)
    requires l.Valid() && l.nodes == []
    modifies l
    ensures l.Valid() && (Values(l.nodes), popped) == Stack(actions)
  {
    popped := [];
    for i := 0 to |actions|
      invariant l.Valid() && fresh(set n | n in l.nodes)
      invariant (Values(l.nodes), popped) == Stack(actions[..i])
    {
      StackMore(actions, i);
      popped := StackAction(l, popped, actions[i]);
    }
    assert actions[..|actions|] == actions;
  }

  method QueueAction(l: List, popped: seq<int>, a: Action) returns (popped': seq<int>)
    requires l.Valid()
    modifies l, l.nodes
    ensures l.Valid() && forall n :: n in l.nodes ==> n in old(l.nodes) || fresh(n)
    ensures (Values(l.nodes), popped') == OnQueue(Values(old(l.nodes)), popped, a)
  {
    match a {
      case Push(v, canAllocate) =>
        var _ := l.PushBack(v, canAllocate);
        popped' := popped;
      case Pop => popped' := Take(l, popped);
    }
  }

  lemma QueueMore(actions: seq<Action>, i: nat)
    requires i < |actions|
    ensures var (held, popped) := Queue(actions[..i]); Queue(actions[..i + 1]) == OnQueue(held, popped, actions[i])
  {
    assert actions[..i + 1][..i] == actions[..i];
  }

  /** Any run on an empty list used as a queue. */
  method RunQueue(l: List, actions: seq<Action>) returns (popped: seq<int>)
    requires l.Valid() && l.nodes == []
    modifies l
    ensures l.Valid() && (Values(l.nodes), popped) == Queue(actions)
  {
    popped := [];
    for i := 0 to |actions|
      invariant l.Valid() && fresh(set n | n in l.nodes)
      invariant (Values(l.nodes), popped) == Queue(actions[..i])
    {
      QueueMore(actions, i);
      popped := QueueAction(l, popped, actions[i]);
    }
    assert actions[..|actions|] == actions;
  }

  /** What an action puts in. */
  function Entered(a: Action): seq<int> { if a.Push? && a.canAllocate then [a.value] else [] }

  function Pushed(actions: seq<Action>): seq<int> {
    if actions == [] then [] else Pushed(actions[..|actions| - 1]) + Entered(actions[|actions| - 1])
  }

  lemma QueueKeepsOrder(held: seq<int>, popped: seq<int>, a: Action)
    ensures var (h, p) := OnQueue(held, popped, a); p + h == popped + held + Entered(a)
  {
    match a
    case Push(v, _) => assert popped + (held + [v]) == popped + held + [v];
    case Pop => assert held != [] ==> popped + [held[0]] + held[1..] == popped + held;
  }

  /** First in, first out over any run: what came out, then what is held, is what went in. */
  lemma {:induction false} QueueIsFifo(actions: seq<Action>)
    ensures Queue(actions).1 + Queue(actions).0 == Pushed(actions)
    decreases |actions|
  {
    if actions != [] {
      QueueIsFifo(actions[..|actions| - 1]);
      var (held, popped) := Queue(actions[..|actions| - 1]);
      var a := actions[|actions| - 1];
      QueueKeepsOrder(held, popped, a);
    }
  }

  /** How many more values actions put in than they take out. */
  function Rise(actions: seq<Action>): int {
    if actions == [] then 0 else
    Rise(actions[..|actions| - 1]) + Change(actions[|actions| - 1])
  }

  function Change(a: Action): int { match a case Push(_, canAllocate) => (if canAllocate then 1 else 0) case Pop => -1 }

  /** They never reach below what was held before them. */
  predicate StaysAbove(actions: seq<Action>) { forall i :: 0 <= i <= |actions| ==> Rise(actions[..i]) >= 0 }

  /** Last in, first out over any history: as long as no more values are taken out than
      have been put in since, what was held is still there, below the others. */
  lemma {:induction false} StackKeepsBelow(history: seq<Action>, actions: seq<Action>)
    requires StaysAbove(actions)
    ensures LiesUnder(Stack(history).0, Stack(history + actions).0, Rise(actions))
    decreases |actions|
  {
    if actions == [] {
      assert history + actions == history;
    } else {
      var n := |actions| - 1;
      forall i | 0 <= i <= n ensures Rise(actions[..n][..i]) >= 0 { assert actions[..n][..i] == actions[..i]; }
      assert actions[..|actions|] == actions && actions[..n][..n] == actions[..n];
      StackKeepsBelow(history, actions[..n]);
      assert (history + actions)[..|history| + n] == history + actions[..n];
      var (held, popped) := Stack(history + actions[..n]);
      OneActionAbove(Stack(history).0, held, popped, Rise(actions[..n]), actions[n]);
    }
  }

  /** A stack with others on it. */
  predicate LiesUnder(below: seq<int>, held: seq<int>, others: int) {
    others >= 0 && |held| == others + |below| && held[others..] == below
  }

  lemma OneActionAbove(below: seq<int>, held: seq<int>, popped: seq<int>, others: int, a: Action)
    requires LiesUnder(below, held, others) && (a.Pop? ==> others > 0)
    ensures LiesUnder(below, OnStack(held, popped, a).0, others + Change(a))
  {
  }

  /** How many values a run leaves: a pop takes one whenever there is one. */
  function Depth(actions: seq<Action>): nat {
    if actions == [] then 0 else
    var before := Depth(actions[..|actions| - 1]);
    match actions[|actions| - 1]
    case Push(_, canAllocate) => if canAllocate then before + 1 else before
    case Pop => if before > 0 then before - 1 else 0
  }

  lemma {:induction false} DepthIs(actions: seq<Action>)
    ensures |Queue(actions).0| == |Stack(actions).0| == Depth(actions)
    ensures |Stack(actions).0| + |Stack(actions).1| == |Pushed(actions)|
    decreases |actions|
  {
    if actions != [] { DepthIs(actions[..|actions| - 1]); }
  }

  function Pushes(values: seq<int>): seq<Action> {
    seq(|values|, i requires 0 <= i < |values| => Push(values[i], true))
  }

  function Pops(n: nat): seq<Action> { seq(n, _ => Pop) }

  /** Last in, first out over any history: values pushed and popped again come out in
      reverse, and what was held before is left as it was. */
  lemma {:induction false} StackIsLifo(history: seq<Action>, values: seq<int>)
    ensures var (held, popped) := Stack(history);
            Stack(history + Pushes(values) + Pops(|values|)) == (held, popped + Reversed(values))
    decreases |values|
  {
    var (held, popped) := Stack(history);
    if values == [] {
      assert history + Pushes(values) + Pops(|values|) == history;
      assert popped + Reversed(values) == popped;
    } else {
      var rest := values[1..];
      var start := history + [Push(values[0], true)];
      StackThen(history, Push(values[0], true));
      StackIsLifo(start, rest);
      var most := start + Pushes(rest) + Pops(|rest|);
      StackThen(most, Pop);
      PushAndPop(history, values);
      assert popped + Reversed(rest) + [values[0]] == popped + Reversed(values);
    }
  }

  lemma StackThen(actions: seq<Action>, a: Action)
    ensures var (held, popped) := Stack(actions); Stack(actions + [a]) == OnStack(held, popped, a)
  {
    assert (actions + [a])[..|actions|] == actions;
  }

  lemma PushAndPop(history: seq<Action>, values: seq<int>)
    requires values != []
    ensures history + [Push(values[0], true)] + Pushes(values[1..]) + Pops(|values| - 1) + [Pop]
         == history + Pushes(values) + Pops(|values|)
  {
  }
}
