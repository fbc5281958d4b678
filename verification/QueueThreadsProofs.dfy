/** Every run of the producer/consumer system: safety, progress and what is left
    at the end. */
module QueueThreadsProofs {
  import opened BlockingQueue
  import opened QueueThreads
  import opened Sums
  import opened Wrappers

  // ---------- the logs ----------

  lemma ValuesAppend(log: seq<(nat, nat)>, item: (nat, nat))
    ensures Values(log + [item]) == Values(log) + [Value(item)]
  {
  }

  lemma ProjectAppend(log: seq<(nat, nat)>, item: (nat, nat), p: nat)
    ensures Project(log + [item], p) == Project(log, p) + if item.0 == p then [item.1] else []
  {
    assert (log + [item])[..|log|] == log;
  }

  lemma UptoAppend(n: nat)
    ensures Upto(n + 1) == Upto(n) + [n]
  {
  }

  // ---------- the integers that are pushed ----------

  /** How many items a producer may have for its values to be told from the next one's. */
  const ITEMS_PER_ID: nat := 1000000

  lemma ValueSplits(p: nat, i: nat)
    requires i < ITEMS_PER_ID
    ensures Value((p, i)) / ITEMS_PER_ID == p && Value((p, i)) % ITEMS_PER_ID == i
  {
  }

  /** The integers that carry the number of producer p. */
  function OfProducer(values: seq<nat>, p: nat): seq<nat> {
    if values == [] then [] else
    var v, rest := values[|values| - 1], OfProducer(values[..|values| - 1], p);
    if v / ITEMS_PER_ID == p then rest + [v] else rest
  }

  function Numbered(p: nat, items: seq<nat>): seq<nat> {
    seq(|items|, k requires 0 <= k < |items| => p * ITEMS_PER_ID + items[k])
  }

  /** Item numbers are too small to reach into the next producer's integers. */
  predicate SmallItems(log: seq<(nat, nat)>) { forall k :: 0 <= k < |log| ==> log[k].1 < ITEMS_PER_ID }

  lemma {:induction false} ValuesOfProducer(log: seq<(nat, nat)>, p: nat)
    requires SmallItems(log)
    ensures OfProducer(Values(log), p) == Numbered(p, Project(log, p))
    decreases |log|
  {
    if log != [] {
      var n := |log| - 1;
      ValuesOfProducer(log[..n], p);
      assert Values(log)[..n] == Values(log[..n]);
      ValueSplits(log[n].0, log[n].1);
    }
  }

  lemma {:induction false} ProjectHas(log: seq<(nat, nat)>, k: nat)
    requires k < |log|
    ensures log[k].1 in Project(log, log[k].0)
    decreases |log|
  {
    if k < |log| - 1 { ProjectHas(log[..|log| - 1], k); }
  }

  /** Only the given producers push. */
  predicate FromProducers(log: seq<(nat, nat)>, producers: nat) {
    forall k :: 0 <= k < |log| ==> log[k].0 < producers
  }

  lemma NextFromProducers(cfg: Config, s: State, step: Step)
    requires LocalInv(cfg, s) && Enabled(cfg, s, step) && FromProducers(s.accepted, cfg.producers)
    ensures FromProducers(Next(cfg, s, step).accepted, cfg.producers)
  {
    if step.ProducerStep? { assert ProducerOk(cfg, s.ring, step.p, s.prod[step.p]); }
  }

  lemma {:induction false} RunFromProducers(cfg: Config, s: State, steps: seq<Step>, last: State)
    requires Inv(cfg, s) && IsRun(cfg, s, steps, last) && FromProducers(s.accepted, cfg.producers)
    ensures FromProducers(last.accepted, cfg.producers)
    decreases |steps|
  {
    if steps != [] {
      NextInv(cfg, s, steps[0]);
      NextFromProducers(cfg, s, steps[0]);
      RunFromProducers(cfg, Next(cfg, s, steps[0]), steps[1..], last);
    }
  }

  /** Pushes that are a prefix of each producer's items have small item numbers. */
  lemma ItemsAreSmall(log: seq<(nat, nat)>, producers: nat, items: nat)
    requires FromProducers(log, producers) && items <= ITEMS_PER_ID
    requires forall p :: 0 <= p < producers ==> Project(log, p) <= Upto(items)
    ensures SmallItems(log)
  {
    forall k | 0 <= k < |log| ensures log[k].1 < ITEMS_PER_ID {
      ProjectHas(log, k);
      assert log[k].1 in Upto(items);
    }
  }

  /** The first `count` integers of producer p, as it pushes them. */
  function Integers(p: nat, count: nat): seq<nat> { seq(count, i requires 0 <= i => p * 1000000 + i) }

  /** What consumers were given, in integers: each carries the number of a producer, and
      those of producer p are its first ones, in its order. */
  lemma IntegersInOrder(log: seq<(nat, nat)>, n: nat, producers: nat, items: nat)
    requires FromProducers(log, producers) && items <= ITEMS_PER_ID && n <= |log|
    requires forall p :: 0 <= p < producers ==> Project(log[..n], p) <= Project(log, p) <= Upto(items)
    ensures forall p :: 0 <= p < producers ==>
              && |Project(log[..n], p)| <= items
              && OfProducer(Values(log[..n]), p) == Integers(p, |Project(log[..n], p)|)
    ensures forall v :: v in Values(log[..n]) ==> v / 1000000 < producers
  {
    ItemsAreSmall(log, producers, items);
    forall p | 0 <= p < producers
      ensures |Project(log[..n], p)| <= items
      ensures OfProducer(Values(log[..n]), p) == Integers(p, |Project(log[..n], p)|)
    {
      ValuesOfProducer(log[..n], p);
    }
    forall v | v in Values(log[..n]) ensures v / 1000000 < producers {
      var k :| 0 <= k < n && v == Value(log[k]);
      ValueSplits(log[k].0, log[k].1);
    }
  }

  // ---------- the invariant holds initially ----------

  lemma {:induction false} SumZero<T>(weight: T -> nat, s: seq<T>)
    requires forall i :: 0 <= i < |s| ==> weight(s[i]) == 0
    ensures SumBy(weight, s) == 0
  {
    SumAtMost(weight, s, 0);
  }

  lemma InitTallies(cfg: Config, s: State)
    requires Init(cfg, s)
    ensures TallyInv(s) && WakeInv(s)
  {
    SumZero(Produced, s.prod);
    SumZero(Pushed, s.prod);
    SumZero(Uncounted, s.cons);
    SumZero(Unsummed, s.cons);
  }

  lemma InitInv(cfg: Config, s: State)
    requires cfg.Valid() && Init(cfg, s)
    ensures Inv(cfg, s)
  {
    InitTallies(cfg, s);
    assert s.ring.Contents() == [] == Values(s.accepted);
  }

  // ---------- every step keeps it ----------

  /** Steps a thread can still make without a push, a pop or a signal. */
  function ProducerRank(t: Producer): nat {
    match t.at
    case Done => 0
    case Parked | Body => 1
    case Test => 2
    case Woken | Lock => 3
    case Loop => 4
    case Tally => 5
    case _ => 6
  }

  function ConsumerRank(t: Consumer): nat {
    match t.at
    case Done => 0
    case Unlock => if t.got.Some? then 7 else 1
    case Parked | Body => 2
    case Test => 3
    case Woken | Lock => 4
    case Sum => 5
    case _ => 6
  }

  /** One consumer changes from `cons[c]` to `t` while the ring goes from `r` to `q`. */
  lemma ItemsAwaitedAfter(r: Ring, q: Ring, cons: seq<Consumer>, c: nat, t: Consumer)
    requires ItemsAwaited(r, cons) && c < |cons| && q.closed == r.closed
    requires if t.at == Parked then q.count == 0 && !q.closed
             else r.closed || q.count + Waking(cons[c].at) <= r.count + Waking(t.at)
    ensures ItemsAwaited(q, cons[c := t])
  {
    SumUpdate(WakingConsumer, cons, c, t);
  }

  /** One producer changes from `prod[p]` to `t` while the ring goes from `r` to `q`. */
  lemma SlotsAwaitedAfter(r: Ring, q: Ring, prod: seq<Producer>, p: nat, t: Producer)
    requires SlotsAwaited(r, prod) && p < |prod| && q.closed == r.closed && |q.items| == |r.items|
    requires if t.at == Parked then q.count == |q.items| && !q.closed
             else r.closed || r.count + Waking(prod[p].at) <= q.count + Waking(t.at)
    ensures SlotsAwaited(q, prod[p := t])
  {
    SumUpdate(WakingProducer, prod, p, t);
  }

  /** A producer that has pushed as much as before. */
  lemma SamePushed(accepted: seq<(nat, nat)>, prod: seq<Producer>, p: nat, t: Producer)
    requires OwnOrder(accepted, prod) && p < |prod| && Pushed(t) == Pushed(prod[p])
    ensures OwnOrder(accepted, prod[p := t])
    ensures SumBy(Pushed, prod[p := t]) == SumBy(Pushed, prod)
    ensures SumBy(Produced, prod[p := t]) + prod[p].next == SumBy(Produced, prod) + t.next
  {
    SumUpdate(Produced, prod, p, t);
    SumUpdate(Pushed, prod, p, t);
  }

  lemma ConsumerTallyAfter(consumed: nat, checksum: nat, cons: seq<Consumer>, popped: seq<nat>, c: nat, t: Consumer,
                           consumed': nat, checksum': nat, popped': seq<nat>)
    requires ConsumerTally(consumed, checksum, cons, popped) && c < |cons|
    requires popped' == popped || (|popped'| > 0 && popped' == popped + [popped'[|popped'| - 1]])
    requires consumed' + Uncounted(t) + |popped| == consumed + Uncounted(cons[c]) + |popped'|
    requires checksum' + Unsummed(t) ==
             checksum + Unsummed(cons[c]) + if |popped'| == |popped| then 0 else popped'[|popped|] % 97
    ensures ConsumerTally(consumed', checksum', cons[c := t], popped')
  {
    SumUpdate(Uncounted, cons, c, t);
    SumUpdate(Unsummed, cons, c, t);
    if popped' != popped { SumAppend(Mod97, popped, popped'[|popped|]); }
  }

  lemma {:induction false} SumSame<T>(weight: T -> nat, s: seq<T>, t: seq<T>)
    requires |s| == |t| && forall i :: 0 <= i < |s| ==> weight(s[i]) == weight(t[i])
    ensures SumBy(weight, s) == SumBy(weight, t)
  {
    if s != [] { SumSame(weight, s[..|s| - 1], t[..|t| - 1]); }
  }

  predicate DataInv(s: State) { FifoInv(s) && WakeInv(s) && TallyInv(s) }

  // a producer's steps other than its critical section

  /** What a thread's move does to the mutex. */
  function HolderAfter(holder: Holder, was: Phase, now: Phase, me: Holder): Holder {
    if Holds(now) then me else if Holds(was) then Free else holder
  }

  /** A producer moves on from where it stands; its critical section is not among the
      moves. */
  predicate ProducerMoved(s: State, after: State, p: nat, t: Producer) {
    && p < |s.prod|
    && after == s.(prod := s.prod[p := t], produced := after.produced,
                   holder := HolderAfter(s.holder, s.prod[p].at, t.at, ByProducer(p)))
    && (Holds(t.at) && !Holds(s.prod[p].at) ==> s.holder == Free)
    && (t.at == Parked ==> s.ring.count == |s.ring.items| && !s.ring.closed)
    && (t.at != Parked ==> Waking(s.prod[p].at) <= Waking(t.at))
    && Pushed(t) == Pushed(s.prod[p]) && after.produced + s.prod[p].next == s.produced + t.next
    && ProducerRank(t) < ProducerRank(s.prod[p])
  }

  lemma ProducerMoveShape(cfg: Config, s: State, p: nat, wake: Option<nat>)
    requires LockInv(s) && Enabled(cfg, s, ProducerStep(p, wake)) && s.prod[p].at != Body
    ensures var after := ProducerNext(cfg, s, p, wake);
            |after.prod| == |s.prod| && ProducerMoved(s, after, p, after.prod[p]) && s.prod[p].at != Done
  {
  }

  lemma ProducerMoveOk(cfg: Config, s: State, p: nat, wake: Option<nat>)
    requires OrderInv(cfg, s) && LocalInv(cfg, s) && Enabled(cfg, s, ProducerStep(p, wake)) && s.prod[p].at != Body
    ensures var after := ProducerNext(cfg, s, p, wake);
            |after.prod| == |s.prod| && ProducerOk(cfg, s.ring, p, after.prod[p])
  {
    assert ProducerOk(cfg, s.ring, p, s.prod[p]);
  }

  lemma LockAfterProducer(s: State, after: State, p: nat, t: Producer)
    requires LockInv(s) && ProducerMoved(s, after, p, t)
    ensures LockInv(after)
  {
  }

  lemma OrderAfterProducer(cfg: Config, s: State, after: State, p: nat, t: Producer)
    requires OrderInv(cfg, s) && ProducerMoved(s, after, p, t) && s.prod[p].at != Done
    ensures OrderInv(cfg, after)
  {
  }

  lemma LocalAfterProducer(cfg: Config, s: State, after: State, p: nat, t: Producer)
    requires LocalInv(cfg, s) && ProducerMoved(s, after, p, t) && ProducerOk(cfg, s.ring, p, t)
    ensures LocalInv(cfg, after)
  {
  }

  lemma DataAfterProducer(s: State, after: State, p: nat, t: Producer)
    requires DataInv(s) && ProducerMoved(s, after, p, t)
    ensures DataInv(after)
  {
    SlotsAwaitedAfter(s.ring, s.ring, s.prod, p, t);
    SamePushed(s.accepted, s.prod, p, t);
  }

  lemma ProducerMoveInv(cfg: Config, s: State, p: nat, wake: Option<nat>)
    requires Inv(cfg, s) && Enabled(cfg, s, ProducerStep(p, wake)) && s.prod[p].at != Body
    ensures Inv(cfg, ProducerNext(cfg, s, p, wake))
  {
    var after := ProducerNext(cfg, s, p, wake);
    ProducerMoveShape(cfg, s, p, wake);
    ProducerMoveOk(cfg, s, p, wake);
    LockAfterProducer(s, after, p, after.prod[p]);
    OrderAfterProducer(cfg, s, after, p, after.prod[p]);
    LocalAfterProducer(cfg, s, after, p, after.prod[p]);
    DataAfterProducer(s, after, p, after.prod[p]);
  }

  // a producer's critical section

  lemma ProducerBodyLock(cfg: Config, s: State, p: nat, wake: Option<nat>)
    requires LockInv(s) && Enabled(cfg, s, ProducerStep(p, wake)) && s.prod[p].at == Body
    ensures LockInv(ProducerNext(cfg, s, p, wake))
  {
  }

  lemma ProducerBodyOrder(cfg: Config, s: State, p: nat, wake: Option<nat>)
    requires OrderInv(cfg, s) && LocalInv(cfg, s) && Enabled(cfg, s, ProducerStep(p, wake)) && s.prod[p].at == Body
    ensures OrderInv(cfg, ProducerNext(cfg, s, p, wake))
  {
  }

  lemma ProducerBodyLocal(cfg: Config, s: State, p: nat, wake: Option<nat>)
    requires ControlInv(cfg, s) && Enabled(cfg, s, ProducerStep(p, wake)) && s.prod[p].at == Body
    ensures LocalInv(cfg, ProducerNext(cfg, s, p, wake))
  {
  }

  lemma ProducerBodyControl(cfg: Config, s: State, p: nat, wake: Option<nat>)
    requires ControlInv(cfg, s) && Enabled(cfg, s, ProducerStep(p, wake)) && s.prod[p].at == Body
    ensures ControlInv(cfg, ProducerNext(cfg, s, p, wake))
  {
    ProducerBodyLock(cfg, s, p, wake);
    ProducerBodyOrder(cfg, s, p, wake);
    ProducerBodyLocal(cfg, s, p, wake);
  }

  lemma ProducerBodyFifo(cfg: Config, s: State, p: nat, wake: Option<nat>)
    requires Inv(cfg, s) && Enabled(cfg, s, ProducerStep(p, wake)) && s.prod[p].at == Body
    ensures FifoInv(ProducerNext(cfg, s, p, wake))
  {
    var after := ProducerNext(cfg, s, p, wake);
    var item := (s.prod[p].id, s.prod[p].next);
    PushAppends(s.ring, Value(item));
    ValuesAppend(s.accepted, item);
    UptoAppend(item.1);
    forall q | 0 <= q < |s.prod|
      ensures Project(after.accepted, q) == Upto(Pushed(after.prod[q]))
    {
      ProjectAppend(s.accepted, item, q);
    }
  }

  lemma ProducerBodyData(cfg: Config, s: State, p: nat, wake: Option<nat>)
    requires WakeInv(s) && TallyInv(s) && Enabled(cfg, s, ProducerStep(p, wake))
    requires s.prod[p].at == Body && !s.ring.closed
    ensures WakeInv(ProducerNext(cfg, s, p, wake)) && TallyInv(ProducerNext(cfg, s, p, wake))
  {
    var after := ProducerNext(cfg, s, p, wake);
    var t := after.prod[p];
    SlotsAwaitedAfter(s.ring, after.ring, s.prod, p, t);
    SumUpdate(Produced, s.prod, p, t);
    SumUpdate(Pushed, s.prod, p, t);
    if wake.Some? {
      var w := s.cons[wake.value].(at := Woken);
      ItemsAwaitedAfter(s.ring, after.ring, s.cons, wake.value, w);
      ConsumerTallyAfter(s.consumed, s.checksum, s.cons, s.popped, wake.value, w, s.consumed, s.checksum, s.popped);
    }
  }

  // a consumer's steps other than its critical section

  predicate ConsumerMoved(s: State, after: State, c: nat, t: Consumer) {
    && c < |s.cons|
    && after == s.(cons := s.cons[c := t], consumed := after.consumed, checksum := after.checksum,
                   holder := HolderAfter(s.holder, s.cons[c].at, t.at, ByConsumer(c)))
    && (Holds(t.at) && !Holds(s.cons[c].at) ==> s.holder == Free)
    && (t.at == Parked ==> s.ring.count == 0 && !s.ring.closed)
    && (t.at != Parked ==> Waking(s.cons[c].at) <= Waking(t.at))
    && after.consumed + Uncounted(t) == s.consumed + Uncounted(s.cons[c])
    && after.checksum + Unsummed(t) == s.checksum + Unsummed(s.cons[c])
    && ConsumerRank(t) < ConsumerRank(s.cons[c])
  }

  lemma ConsumerMoveShape(cfg: Config, s: State, c: nat, wake: Option<nat>)
    requires LockInv(s) && Enabled(cfg, s, ConsumerStep(c, wake)) && s.cons[c].at != Body
    requires ConsumerOk(s.ring, s.cons[c])
    ensures var after := ConsumerNext(cfg, s, c, wake);
            && |after.cons| == |s.cons|
            && ConsumerMoved(s, after, c, after.cons[c]) && s.cons[c].at != Done
            && ConsumerOk(s.ring, after.cons[c])
            && (after.cons[c].at == Done ==> s.ring.closed && s.ring.count == 0)
  {
  }

  lemma LockAfterConsumer(s: State, after: State, c: nat, t: Consumer)
    requires LockInv(s) && ConsumerMoved(s, after, c, t)
    ensures LockInv(after)
  {
  }

  lemma OrderAfterConsumer(cfg: Config, s: State, after: State, c: nat, t: Consumer)
    requires OrderInv(cfg, s) && ConsumerMoved(s, after, c, t) && s.cons[c].at != Done
    requires t.at == Done ==> s.ring.closed && s.ring.count == 0
    ensures OrderInv(cfg, after)
  {
  }

  lemma LocalAfterConsumer(cfg: Config, s: State, after: State, c: nat, t: Consumer)
    requires LocalInv(cfg, s) && ConsumerMoved(s, after, c, t) && ConsumerOk(s.ring, t)
    ensures LocalInv(cfg, after)
  {
  }

  lemma DataAfterConsumer(s: State, after: State, c: nat, t: Consumer)
    requires DataInv(s) && ConsumerMoved(s, after, c, t)
    ensures DataInv(after)
  {
    ItemsAwaitedAfter(s.ring, s.ring, s.cons, c, t);
    ConsumerTallyAfter(s.consumed, s.checksum, s.cons, s.popped, c, t, after.consumed, after.checksum, s.popped);
  }

  lemma ConsumerMoveInv(cfg: Config, s: State, c: nat, wake: Option<nat>)
    requires Inv(cfg, s) && Enabled(cfg, s, ConsumerStep(c, wake)) && s.cons[c].at != Body
    ensures Inv(cfg, ConsumerNext(cfg, s, c, wake))
  {
    var after := ConsumerNext(cfg, s, c, wake);
    ConsumerMoveShape(cfg, s, c, wake);
    LockAfterConsumer(s, after, c, after.cons[c]);
    OrderAfterConsumer(cfg, s, after, c, after.cons[c]);
    LocalAfterConsumer(cfg, s, after, c, after.cons[c]);
    DataAfterConsumer(s, after, c, after.cons[c]);
  }

  // a consumer's critical section

  lemma ConsumerBodyLock(cfg: Config, s: State, c: nat, wake: Option<nat>)
    requires LockInv(s) && Enabled(cfg, s, ConsumerStep(c, wake)) && s.cons[c].at == Body
    ensures LockInv(ConsumerNext(cfg, s, c, wake))
  {
  }

  lemma ConsumerBodyOrder(cfg: Config, s: State, c: nat, wake: Option<nat>)
    requires OrderInv(cfg, s) && LocalInv(cfg, s) && Enabled(cfg, s, ConsumerStep(c, wake)) && s.cons[c].at == Body
    ensures OrderInv(cfg, ConsumerNext(cfg, s, c, wake))
  {
  }

  lemma ConsumerBodyLocal(cfg: Config, s: State, c: nat, wake: Option<nat>)
    requires ControlInv(cfg, s) && Enabled(cfg, s, ConsumerStep(c, wake)) && s.cons[c].at == Body
    ensures LocalInv(cfg, ConsumerNext(cfg, s, c, wake))
  {
  }

  lemma ConsumerBodyControl(cfg: Config, s: State, c: nat, wake: Option<nat>)
    requires ControlInv(cfg, s) && Enabled(cfg, s, ConsumerStep(c, wake)) && s.cons[c].at == Body
    ensures ControlInv(cfg, ConsumerNext(cfg, s, c, wake))
  {
    ConsumerBodyLock(cfg, s, c, wake);
    ConsumerBodyOrder(cfg, s, c, wake);
    ConsumerBodyLocal(cfg, s, c, wake);
  }

  lemma ConsumerBodyFifo(cfg: Config, s: State, c: nat, wake: Option<nat>)
    requires FifoInv(s) && Enabled(cfg, s, ConsumerStep(c, wake)) && s.cons[c].at == Body
    ensures FifoInv(ConsumerNext(cfg, s, c, wake))
  {
    if s.ring.count > 0 {
      PopFifo(s.ring, s.accepted, s.popped);
      ConsumerBodyOwnOrder(cfg, s, c, wake);
    }
  }

  lemma PopFifo(ring: Ring, accepted: seq<(nat, nat)>, popped: seq<nat>)
    requires Fifo(ring, accepted, popped) && ring.count > 0
    ensures Fifo(ring.Pop(), accepted, popped + [ring.items[ring.head]])
  {
    PopRemovesFirst(ring);
    assert popped + ring.Contents() == popped + [ring.items[ring.head]] + ring.Pop().Contents();
  }

  /** Waking a producer is no push. */
  lemma ConsumerBodyOwnOrder(cfg: Config, s: State, c: nat, wake: Option<nat>)
    requires OwnOrder(s.accepted, s.prod) && Enabled(cfg, s, ConsumerStep(c, wake)) && s.cons[c].at == Body
    ensures var after := ConsumerNext(cfg, s, c, wake); OwnOrder(after.accepted, after.prod)
  {
  }

  lemma ConsumerBodyItems(cfg: Config, s: State, c: nat, wake: Option<nat>)
    requires WakeInv(s) && Enabled(cfg, s, ConsumerStep(c, wake))
    requires s.cons[c].at == Body && (s.ring.count == 0 ==> s.ring.closed)
    ensures var after := ConsumerNext(cfg, s, c, wake); ItemsAwaited(after.ring, after.cons)
  {
    var after := ConsumerNext(cfg, s, c, wake);
    var t := after.cons[c];
    assert after.cons == s.cons[c := t];
    ItemsAwaitedAfter(s.ring, after.ring, s.cons, c, t);
  }

  lemma ConsumerBodyTally(cfg: Config, s: State, c: nat, wake: Option<nat>)
    requires TallyInv(s) && Enabled(cfg, s, ConsumerStep(c, wake)) && s.cons[c].at == Body
    ensures var after := ConsumerNext(cfg, s, c, wake);
            ConsumerTally(after.consumed, after.checksum, after.cons, after.popped)
  {
    var after := ConsumerNext(cfg, s, c, wake);
    var t := after.cons[c];
    assert after.cons == s.cons[c := t];
    ConsumerTallyAfter(s.consumed, s.checksum, s.cons, s.popped, c, t, after.consumed, after.checksum, after.popped);
  }

  lemma ConsumerBodySlots(cfg: Config, s: State, c: nat, wake: Option<nat>)
    requires DataInv(s) && Enabled(cfg, s, ConsumerStep(c, wake)) && s.cons[c].at == Body
    ensures var after := ConsumerNext(cfg, s, c, wake);
            SlotsAwaited(after.ring, after.prod) && ProducerTally(after)
  {
    if s.ring.count > 0 && wake.Some? {
      var w := s.prod[wake.value].(at := Woken);
      SlotsAwaitedAfter(s.ring, s.ring.Pop(), s.prod, wake.value, w);
      SamePushed(s.accepted, s.prod, wake.value, w);
    }
  }

  // main, and spurious wakeups

  lemma MainCloseControl(cfg: Config, s: State)
    requires ControlInv(cfg, s) && Enabled(cfg, s, MainStep) && s.main == CloseBody
    ensures ControlInv(cfg, MainNext(cfg, s))
  {
  }

  lemma MainMoveLock(cfg: Config, s: State)
    requires LockInv(s) && Enabled(cfg, s, MainStep) && s.main != CloseBody
    ensures LockInv(MainNext(cfg, s))
  {
  }

  lemma MainMoveOrder(cfg: Config, s: State)
    requires OrderInv(cfg, s) && Enabled(cfg, s, MainStep) && s.main != CloseBody
    ensures OrderInv(cfg, MainNext(cfg, s))
  {
  }

  lemma MainMoveControl(cfg: Config, s: State)
    requires ControlInv(cfg, s) && Enabled(cfg, s, MainStep) && s.main != CloseBody
    ensures ControlInv(cfg, MainNext(cfg, s))
  {
    MainMoveLock(cfg, s);
    MainMoveOrder(cfg, s);
  }

  lemma CloseTallies(cfg: Config, s: State)
    requires TallyInv(s) && Enabled(cfg, s, MainStep) && s.main.CloseBody?
    ensures TallyInv(MainNext(cfg, s))
  {
    var after := MainNext(cfg, s);
    SumSame(Produced, s.prod, after.prod);
    SumSame(Pushed, s.prod, after.prod);
    SumSame(Uncounted, s.cons, after.cons);
    SumSame(Unsummed, s.cons, after.cons);
  }

  lemma CloseFifo(cfg: Config, s: State)
    requires FifoInv(s) && Enabled(cfg, s, MainStep) && s.main.CloseBody?
    ensures FifoInv(MainNext(cfg, s)) && WakeInv(MainNext(cfg, s))
  {
    assert MainNext(cfg, s).ring.Contents() == s.ring.Contents();
  }

  lemma MainData(cfg: Config, s: State)
    requires DataInv(s) && Enabled(cfg, s, MainStep)
    ensures DataInv(MainNext(cfg, s))
  {
    if s.main.CloseBody? {
      CloseTallies(cfg, s);
      CloseFifo(cfg, s);
    }
  }

  lemma SpuriousProducerData(cfg: Config, s: State, p: nat)
    requires DataInv(s) && Enabled(cfg, s, SpuriousProducer(p))
    ensures DataInv(WithProducer(s, p, Woken))
  {
    var t := s.prod[p].(at := Woken);
    SlotsAwaitedAfter(s.ring, s.ring, s.prod, p, t);
    SamePushed(s.accepted, s.prod, p, t);
  }

  lemma SpuriousConsumerData(cfg: Config, s: State, c: nat)
    requires DataInv(s) && Enabled(cfg, s, SpuriousConsumer(c))
    ensures DataInv(WithConsumer(s, c, Woken))
  {
    var t := s.cons[c].(at := Woken);
    ItemsAwaitedAfter(s.ring, s.ring, s.cons, c, t);
    ConsumerTallyAfter(s.consumed, s.checksum, s.cons, s.popped, c, t, s.consumed, s.checksum, s.popped);
  }

  lemma SpuriousControl(cfg: Config, s: State, step: Step)
    requires ControlInv(cfg, s) && Enabled(cfg, s, step) && step.Spurious()
    ensures ControlInv(cfg, Next(cfg, s, step))
  {
  }

  /** The invariant holds after every step of every thread. */
  lemma NextInv(cfg: Config, s: State, step: Step)
    requires Inv(cfg, s) && Enabled(cfg, s, step)
    ensures Inv(cfg, Next(cfg, s, step))
  {
    match step
    case ProducerStep(p, wake) =>
      if s.prod[p].at == Body {
        ProducerBodyControl(cfg, s, p, wake);
        ProducerBodyFifo(cfg, s, p, wake);
        ProducerBodyData(cfg, s, p, wake);
      } else {
        ProducerMoveInv(cfg, s, p, wake);
      }
    case ConsumerStep(c, wake) =>
      if s.cons[c].at == Body {
        ConsumerBodyControl(cfg, s, c, wake);
        ConsumerBodyFifo(cfg, s, c, wake);
        ConsumerBodyItems(cfg, s, c, wake);
        ConsumerBodyTally(cfg, s, c, wake);
        ConsumerBodySlots(cfg, s, c, wake);
      } else {
        ConsumerMoveInv(cfg, s, c, wake);
      }
    case MainStep =>
      if s.main == CloseBody { MainCloseControl(cfg, s); } else { MainMoveControl(cfg, s); }
      MainData(cfg, s);
    case SpuriousProducer(p) =>
      SpuriousControl(cfg, s, step);
      SpuriousProducerData(cfg, s, p);
    case SpuriousConsumer(c) =>
      SpuriousControl(cfg, s, step);
      SpuriousConsumerData(cfg, s, c);
  }

  // ---------- safety over whole runs ----------

  lemma {:induction false} RunInv(cfg: Config, s: State, steps: seq<Step>, last: State)
    requires Inv(cfg, s) && IsRun(cfg, s, steps, last)
    ensures Inv(cfg, last)
    decreases |steps|
  {
    if steps != [] {
      NextInv(cfg, s, steps[0]);
      RunInv(cfg, Next(cfg, s, steps[0]), steps[1..], last);
    }
  }

  lemma {:induction false} ProjectPrefix(log: seq<(nat, nat)>, n: nat, p: nat)
    requires n <= |log|
    ensures Project(log[..n], p) <= Project(log, p)
    decreases |log|
  {
    if n < |log| {
      ProjectPrefix(log[..|log| - 1], n, p);
      assert log[..|log| - 1][..n] == log[..n];
    } else {
      assert log[..n] == log;
    }
  }

  /** Linearizable FIFO under every interleaving. In every reachable state the
      values popped are the first pushes, in push order; the ring holds the other
      pushes; and the values of any one producer come out in its own order. */
  lemma LinearizableFifo(cfg: Config, s: State, steps: seq<Step>, last: State)
    requires cfg.Valid() && Init(cfg, s) && IsRun(cfg, s, steps, last)
    ensures last.ring.Valid() && |last.ring.items| == cfg.capacity
    ensures last.popped + last.ring.Contents() == Values(last.accepted)
    ensures |last.popped| <= |last.accepted| && last.popped == Values(last.accepted[..|last.popped|])
    ensures forall p :: 0 <= p < cfg.producers ==>
              Project(last.accepted[..|last.popped|], p) <= Project(last.accepted, p) <= Upto(cfg.items)
    ensures cfg.items <= ITEMS_PER_ID ==>
              && (forall v :: v in last.popped ==> v / 1000000 < cfg.producers)
              && (forall p :: 0 <= p < cfg.producers ==> OfProducer(last.popped, p) <= Integers(p, cfg.items))
  {
    assert FifoInv(last) && LocalInv(cfg, last) by {
      InitInv(cfg, s);
      RunInv(cfg, s, steps, last);
    }
    assert |last.popped + last.ring.Contents()| == |last.accepted|;
    assert last.popped == Values(last.accepted)[..|last.popped|] == Values(last.accepted[..|last.popped|]);
    forall p | 0 <= p < cfg.producers
      ensures Project(last.accepted[..|last.popped|], p) <= Project(last.accepted, p) <= Upto(cfg.items)
    {
      ProjectPrefix(last.accepted, |last.popped|, p);
    }
    if cfg.items <= ITEMS_PER_ID { PoppedIntegers(cfg, s, steps, last); }
  }

  lemma PoppedIntegers(cfg: Config, s: State, steps: seq<Step>, last: State)
    requires cfg.Valid() && Init(cfg, s) && IsRun(cfg, s, steps, last) && cfg.items <= ITEMS_PER_ID
    requires |last.popped| <= |last.accepted| && last.popped == Values(last.accepted[..|last.popped|])
    requires forall p :: 0 <= p < cfg.producers ==>
               Project(last.accepted[..|last.popped|], p) <= Project(last.accepted, p) <= Upto(cfg.items)
    ensures forall v :: v in last.popped ==> v / 1000000 < cfg.producers
    ensures forall p :: 0 <= p < cfg.producers ==> OfProducer(last.popped, p) <= Integers(p, cfg.items)
  {
    InitInv(cfg, s);
    RunFromProducers(cfg, s, steps, last);
    IntegersInOrder(last.accepted, |last.popped|, cfg.producers, cfg.items);
    forall p, n | 0 <= p && 0 <= n <= cfg.items ensures Integers(p, n) <= Integers(p, cfg.items) {}
  }

  // ---------- progress ----------

  predicate AllFinished(s: State) {
    && (forall p :: 0 <= p < |s.prod| ==> s.prod[p].at == Done)
    && (forall c :: 0 <= c < |s.cons| ==> s.cons[c].at == Done)
    && s.main.Exited?
  }

  lemma SignalProducer(s: State) returns (wake: Option<nat>)
    ensures WakesProducer(s, wake)
  {
    if p :| 0 <= p < |s.prod| && s.prod[p].at == Parked { wake := Some(p); } else { wake := None; }
  }

  lemma SignalConsumer(s: State) returns (wake: Option<nat>)
    ensures WakesConsumer(s, wake)
  {
    if c :| 0 <= c < |s.cons| && s.cons[c].at == Parked { wake := Some(c); } else { wake := None; }
  }

  /** A producer that is neither parked nor finished can step, unless it waits for
      a mutex that somebody holds. */
  lemma ProducerCanStep(cfg: Config, s: State, p: nat) returns (step: Step)
    requires Inv(cfg, s) && p < |s.prod| && s.prod[p].at != Parked && s.prod[p].at != Done
    requires s.holder == Free || s.holder == ByProducer(p)
    ensures Enabled(cfg, s, step) && !step.Spurious()
  {
    var wake := SignalConsumer(s);
    step := ProducerStep(p, wake);
  }

  lemma ConsumerCanStep(cfg: Config, s: State, c: nat) returns (step: Step)
    requires Inv(cfg, s) && c < |s.cons| && s.cons[c].at != Parked && s.cons[c].at != Done
    requires s.holder == Free || s.holder == ByConsumer(c)
    ensures Enabled(cfg, s, step) && !step.Spurious()
  {
    var wake := SignalProducer(s);
    step := ConsumerStep(c, wake);
  }

  /** With every thread parked or finished, main is not stuck behind a parked one:
      parked producers mean a full ring and parked consumers an empty one. */
  lemma NobodyStuck(cfg: Config, s: State)
    requires Inv(cfg, s) && s.holder == Free && !AllFinished(s)
    requires forall p :: 0 <= p < |s.prod| ==> s.prod[p].at == Parked || s.prod[p].at == Done
    requires forall c :: 0 <= c < |s.cons| ==> s.cons[c].at == Parked || s.cons[c].at == Done
    ensures Enabled(cfg, s, MainStep)
  {
    SumZero(WakingProducer, s.prod);
    SumZero(WakingConsumer, s.cons);
  }

  lemma CanStep(cfg: Config, s: State) returns (step: Step)
    requires Inv(cfg, s) && !AllFinished(s)
    ensures Enabled(cfg, s, step) && !step.Spurious()
  {
    if s.holder.ByProducer? {
      step := ProducerCanStep(cfg, s, s.holder.p);
    } else if s.holder.ByConsumer? {
      step := ConsumerCanStep(cfg, s, s.holder.c);
    } else if s.holder.ByMain? {
      step := MainStep;
    } else if p :| 0 <= p < |s.prod| && s.prod[p].at != Parked && s.prod[p].at != Done {
      step := ProducerCanStep(cfg, s, p);
    } else if c :| 0 <= c < |s.cons| && s.cons[c].at != Parked && s.cons[c].at != Done {
      step := ConsumerCanStep(cfg, s, c);
    } else {
      NobodyStuck(cfg, s);
      step := MainStep;
    }
  }

  /** No lost wakeup and no deadlock: in every reachable state in which some thread
      has not finished, a step other than a spurious wakeup is possible. */
  lemma NoDeadlock(cfg: Config, s: State, steps: seq<Step>, last: State)
    requires cfg.Valid() && Init(cfg, s) && IsRun(cfg, s, steps, last)
    ensures ItemsAwaited(last.ring, last.cons) && SlotsAwaited(last.ring, last.prod)
    ensures !AllFinished(last) ==> exists step :: Enabled(cfg, last, step) && !step.Spurious()
  {
    InitInv(cfg, s);
    RunInv(cfg, s, steps, last);
    if !AllFinished(last) { var step := CanStep(cfg, last); }
  }

  // ---------- termination ----------

  function MainRank(s: State): nat {
    var wakeAll := 2 * (|s.prod| + |s.cons|) + 1;
    match s.main
    case JoinProducer(n) => (if n <= |s.prod| then |s.prod| - n else 0) + |s.cons| + wakeAll + 5
    case CloseLock => |s.cons| + wakeAll + 4
    case CloseBody => |s.cons| + wakeAll + 3
    case CloseUnlock => |s.cons| + 2
    case JoinConsumer(n) => (if n <= |s.cons| then |s.cons| - n else 0) + 1
    case Exited => 0
  }

  /** Work left, given how many pushes there are in all: pushes and pops still to
      come weigh enough to pay for the wakeups they cause. */
  function Measure(total: nat, s: State): int {
    10 * (total - |s.accepted|) + 10 * (total - |s.popped|)
    + SumBy(ProducerRank, s.prod) + SumBy(ConsumerRank, s.cons) + MainRank(s)
  }

  lemma PushedBound(cfg: Config, s: State)
    requires Inv(cfg, s)
    ensures |s.popped| <= |s.accepted| <= cfg.producers * cfg.items
    ensures Measure(cfg.producers * cfg.items, s) >= 0
  {
    assert |s.popped + s.ring.Contents()| == |s.accepted|;
    SumAtMost(Pushed, s.prod, cfg.items);
  }

  lemma RankAfterProducer(total: nat, s: State, after: State, p: nat, t: Producer)
    requires ProducerMoved(s, after, p, t)
    ensures Measure(total, after) < Measure(total, s)
  {
    SumUpdate(ProducerRank, s.prod, p, t);
  }

  lemma RankAfterConsumer(total: nat, s: State, after: State, c: nat, t: Consumer)
    requires ConsumerMoved(s, after, c, t)
    ensures Measure(total, after) < Measure(total, s)
  {
    SumUpdate(ConsumerRank, s.cons, c, t);
  }

  lemma ProducerBodyDecreases(cfg: Config, total: nat, s: State, p: nat, wake: Option<nat>)
    requires Enabled(cfg, s, ProducerStep(p, wake)) && s.prod[p].at == Body && !s.ring.closed
    ensures Measure(total, ProducerNext(cfg, s, p, wake)) < Measure(total, s)
  {
    var after := ProducerNext(cfg, s, p, wake);
    SumUpdate(ProducerRank, s.prod, p, after.prod[p]);
    if wake.Some? { SumUpdate(ConsumerRank, s.cons, wake.value, after.cons[wake.value]); }
  }

  lemma ConsumerEndDecreases(cfg: Config, total: nat, s: State, c: nat, wake: Option<nat>)
    requires Enabled(cfg, s, ConsumerStep(c, wake)) && s.cons[c].at == Body && s.ring.count == 0
    ensures Measure(total, ConsumerNext(cfg, s, c, wake)) < Measure(total, s)
  {
    SumUpdate(ConsumerRank, s.cons, c, Consumer(Unlock, None));
  }

  lemma ConsumerPopDecreases(cfg: Config, total: nat, s: State, c: nat, wake: Option<nat>)
    requires Enabled(cfg, s, ConsumerStep(c, wake)) && s.cons[c].at == Body && s.ring.count > 0
    ensures Measure(total, ConsumerNext(cfg, s, c, wake)) < Measure(total, s)
  {
    SumUpdate(ConsumerRank, s.cons, c, Consumer(Unlock, Some(s.ring.items[s.ring.head])));
    if wake.Some? { SumUpdate(ProducerRank, s.prod, wake.value, s.prod[wake.value].(at := Woken)); }
  }

  lemma MainStepDecreases(cfg: Config, total: nat, s: State)
    requires Enabled(cfg, s, MainStep)
    ensures Measure(total, MainNext(cfg, s)) < Measure(total, s)
  {
    var after := MainNext(cfg, s);
    if s.main == CloseBody {
      SumGrowth(ProducerRank, s.prod, after.prod, 2);
      SumGrowth(ConsumerRank, s.cons, after.cons, 2);
    }
  }

  lemma SpuriousIncrease(cfg: Config, total: nat, s: State, step: Step)
    requires Enabled(cfg, s, step) && step.Spurious()
    ensures Measure(total, Next(cfg, s, step)) == Measure(total, s) + 2
  {
    match step
    case SpuriousProducer(p) => SumUpdate(ProducerRank, s.prod, p, s.prod[p].(at := Woken));
    case SpuriousConsumer(c) => SumUpdate(ConsumerRank, s.cons, c, s.cons[c].(at := Woken));
  }

  function SpuriousCount(steps: seq<Step>): nat {
    if steps == [] then 0 else (if steps[0].Spurious() then 1 else 0) + SpuriousCount(steps[1..])
  }

  lemma ThreadStepDecreases(cfg: Config, total: nat, s: State, step: Step)
    requires Inv(cfg, s) && Enabled(cfg, s, step) && (step.ProducerStep? || step.ConsumerStep?)
    ensures Measure(total, Next(cfg, s, step)) < Measure(total, s)
  {
    var after := Next(cfg, s, step);
    match step
    case ProducerStep(p, wake) =>
      if s.prod[p].at == Body {
        assert ProducerOk(cfg, s.ring, p, s.prod[p]);
        ProducerBodyDecreases(cfg, total, s, p, wake);
      } else {
        ProducerMoveShape(cfg, s, p, wake);
        RankAfterProducer(total, s, after, p, after.prod[p]);
      }
    case ConsumerStep(c, wake) =>
      if s.cons[c].at == Body {
        if s.ring.count == 0 { ConsumerEndDecreases(cfg, total, s, c, wake); }
        else { ConsumerPopDecreases(cfg, total, s, c, wake); }
      } else {
        ConsumerMoveShape(cfg, s, c, wake);
        RankAfterConsumer(total, s, after, c, after.cons[c]);
      }
  }

  lemma StepBound(cfg: Config, total: nat, s: State, step: Step)
    requires Inv(cfg, s) && Enabled(cfg, s, step)
    ensures Measure(total, Next(cfg, s, step)) + 1 <= Measure(total, s) + if step.Spurious() then 3 else 0
  {
    match step
    case MainStep => MainStepDecreases(cfg, total, s);
    case ProducerStep(_, _) => ThreadStepDecreases(cfg, total, s, step);
    case ConsumerStep(_, _) => ThreadStepDecreases(cfg, total, s, step);
    case _ => SpuriousIncrease(cfg, total, s, step);
  }

  lemma {:induction false} RunBound(cfg: Config, total: nat, s: State, steps: seq<Step>, last: State)
    requires Inv(cfg, s) && IsRun(cfg, s, steps, last) && total == cfg.producers * cfg.items
    ensures |steps| <= Measure(total, s) + 3 * SpuriousCount(steps)
    decreases |steps|
  {
    if steps == [] {
      PushedBound(cfg, s);
    } else {
      var next := Next(cfg, s, steps[0]);
      StepBound(cfg, total, s, steps[0]);
      NextInv(cfg, s, steps[0]);
      RunBound(cfg, total, next, steps[1..], last);
    }
  }

  lemma InitMeasure(cfg: Config, total: nat, s: State)
    requires Init(cfg, s)
    ensures Measure(total, s) <= 20 * total + 7 * (cfg.producers + cfg.consumers) + 6
  {
    SumAtMost(ProducerRank, s.prod, 4);
    SumAtMost(ConsumerRank, s.cons, 4);
  }

  /** Termination: a run is at most linear in the work, plus three steps for each
      spurious wakeup in it; so only endless spurious wakeups can run for ever. */
  lemma Termination(cfg: Config, s: State, steps: seq<Step>, last: State)
    requires cfg.Valid() && Init(cfg, s) && IsRun(cfg, s, steps, last)
    ensures |steps| <= 20 * (cfg.producers * cfg.items) + 7 * (cfg.producers + cfg.consumers) + 6
                       + 3 * SpuriousCount(steps)
  {
    InitMeasure(cfg, cfg.producers * cfg.items, s);
    assert |steps| <= Measure(cfg.producers * cfg.items, s) + 3 * SpuriousCount(steps) by {
      InitInv(cfg, s);
      RunBound(cfg, cfg.producers * cfg.items, s, steps, last);
    }
  }

  // ---------- what is left at the end ----------

  /** The checksum of the first n items of producer p. */
  function OwnChecksum(p: nat, n: nat): nat {
    if n == 0 then 0 else OwnChecksum(p, n - 1) + Value((p, n - 1)) % 97
  }

  function PushedChecksum(t: Producer): nat { OwnChecksum(t.id, Pushed(t)) }

  /** The checksum of all items of the first `producers` producers. */
  function TotalChecksum(producers: nat, items: nat): nat {
    if producers == 0 then 0 else TotalChecksum(producers - 1, items) + OwnChecksum(producers - 1, items)
  }

  predicate ChecksumInv(s: State) { SumBy(Mod97, Values(s.accepted)) == SumBy(PushedChecksum, s.prod) }

  lemma OnePushOwn(prod: seq<Producer>, p: nat)
    requires p < |prod| && prod[p].at == Body
    ensures SumBy(PushedChecksum, prod[p := prod[p].(at := Unlock)])
         == SumBy(PushedChecksum, prod) + Value((prod[p].id, prod[p].next)) % 97
  {
    OneMoreOwn(prod[p]);
    SumUpdate(PushedChecksum, prod, p, prod[p].(at := Unlock));
  }

  lemma OneMoreOwn(t: Producer)
    requires t.at == Body
    ensures PushedChecksum(t.(at := Unlock)) == PushedChecksum(t) + Value((t.id, t.next)) % 97
  {
  }

  lemma OnePushLog(accepted: seq<(nat, nat)>, item: (nat, nat))
    ensures SumBy(Mod97, Values(accepted + [item])) == SumBy(Mod97, Values(accepted)) + Value(item) % 97
  {
    ValuesAppend(accepted, item);
    SumAppend(Mod97, Values(accepted), Value(item));
  }

  lemma BodyChecksum(cfg: Config, s: State, p: nat, wake: Option<nat>)
    requires Enabled(cfg, s, ProducerStep(p, wake)) && ChecksumInv(s)
    requires s.prod[p].at == Body && !s.ring.closed
    ensures ChecksumInv(ProducerNext(cfg, s, p, wake))
  {
    OnePushOwn(s.prod, p);
    OnePushLog(s.accepted, (s.prod[p].id, s.prod[p].next));
  }

  lemma OtherChecksum(cfg: Config, s: State, step: Step)
    requires Enabled(cfg, s, step) && ChecksumInv(s)
    requires step.ProducerStep? ==> s.prod[step.p].at != Body
    ensures ChecksumInv(Next(cfg, s, step))
  {
    SumSame(PushedChecksum, s.prod, Next(cfg, s, step).prod);
  }

  lemma {:induction false} RunChecksum(cfg: Config, s: State, steps: seq<Step>, last: State)
    requires Inv(cfg, s) && IsRun(cfg, s, steps, last) && ChecksumInv(s)
    ensures ChecksumInv(last)
    decreases |steps|
  {
    if steps != [] {
      NextInv(cfg, s, steps[0]);
      if steps[0].ProducerStep? && s.prod[steps[0].p].at == Body {
        BodyChecksum(cfg, s, steps[0].p, steps[0].wake);
      } else {
        OtherChecksum(cfg, s, steps[0]);
      }
      RunChecksum(cfg, Next(cfg, s, steps[0]), steps[1..], last);
    }
  }

  lemma {:induction false} FinalSums(prod: seq<Producer>, items: nat)
    requires forall p :: 0 <= p < |prod| ==> prod[p] == Producer(p, items, Done)
    ensures SumBy(Produced, prod) == SumBy(Pushed, prod) == |prod| * items
    ensures SumBy(PushedChecksum, prod) == TotalChecksum(|prod|, items)
    decreases |prod|
  {
    if prod != [] {
      FinalSums(prod[..|prod| - 1], items);
      assert |prod| * items == (|prod| - 1) * items + items;
    }
  }

  /** When all threads are done the queue is empty and everything in it was popped. */
  lemma FinishedQueue(cfg: Config, s: State)
    requires cfg.Valid() && OrderInv(cfg, s) && LocalInv(cfg, s) && FifoInv(s) && AllFinished(s)
    ensures s.ring.count == 0 && s.ring.closed
    ensures s.popped == Values(s.accepted)
    ensures forall p :: 0 <= p < cfg.producers ==>
              s.prod[p] == Producer(p, cfg.items, Done) && Project(s.accepted, p) == Upto(cfg.items)
  {
    assert s.cons[0].at == Done;
    assert s.popped + s.ring.Contents() == s.popped;
    forall p | 0 <= p < cfg.producers
      ensures s.prod[p] == Producer(p, cfg.items, Done) && Project(s.accepted, p) == Upto(cfg.items)
    {
      assert s.prod[p].at == Done;
    }
  }

  /** When all threads are done the counters are exact. */
  lemma FinishedCounts(cfg: Config, s: State)
    requires |s.prod| == cfg.producers && AllFinished(s) && TallyInv(s) && ChecksumInv(s)
    requires forall p :: 0 <= p < cfg.producers ==> s.prod[p] == Producer(p, cfg.items, Done)
    requires s.popped == Values(s.accepted)
    ensures s.produced == s.consumed == |s.accepted| == cfg.producers * cfg.items
    ensures s.checksum == TotalChecksum(cfg.producers, cfg.items) == SumBy(Mod97, s.popped)
  {
    SumZero(Uncounted, s.cons);
    SumZero(Unsummed, s.cons);
    FinalSums(s.prod, cfg.items);
  }

  /** Nothing but spurious wakeups can happen only when all threads are done. */
  lemma StuckIsFinished(cfg: Config, s: State)
    requires Inv(cfg, s) && forall step :: Enabled(cfg, s, step) ==> step.Spurious()
    ensures AllFinished(s)
  {
    if !AllFinished(s) {
      var step := CanStep(cfg, s);
      assert false;
    }
  }

  lemma ReachedInv(cfg: Config, s: State, steps: seq<Step>, last: State)
    requires cfg.Valid() && Init(cfg, s) && IsRun(cfg, s, steps, last)
    ensures Inv(cfg, last) && ChecksumInv(last)
  {
    InitInv(cfg, s);
    SumZero(PushedChecksum, s.prod);
    RunInv(cfg, s, steps, last);
    RunChecksum(cfg, s, steps, last);
  }

  /** Conservation: when a run can only go on by spurious wakeups, every thread has
      finished, nothing was dropped and nothing is left in the queue. Each producer
      contributed all its items in order, and the counters main prints are exact. */
  lemma EndState(cfg: Config, s: State, steps: seq<Step>, last: State)
    requires cfg.Valid() && Init(cfg, s) && IsRun(cfg, s, steps, last)
    requires forall step :: Enabled(cfg, last, step) ==> step.Spurious()
    ensures AllFinished(last)
    ensures last.ring.count == 0 && last.ring.closed
    ensures last.popped == Values(last.accepted)
    ensures forall p :: 0 <= p < cfg.producers ==> Project(last.accepted, p) == Upto(cfg.items)
    ensures last.produced == last.consumed == |last.accepted| == cfg.producers * cfg.items
    ensures last.checksum == TotalChecksum(cfg.producers, cfg.items) == SumBy(Mod97, last.popped)
    ensures cfg.items <= ITEMS_PER_ID ==>
              && (forall v :: v in last.popped ==> v / 1000000 < cfg.producers)
              && (forall p :: 0 <= p < cfg.producers ==> OfProducer(last.popped, p) == Integers(p, cfg.items))
  {
    ReachedInv(cfg, s, steps, last);
    StuckIsFinished(cfg, last);
    FinishedQueue(cfg, last);
    FinishedCounts(cfg, last);
    if cfg.items <= ITEMS_PER_ID { EndIntegers(cfg, s, steps, last); }
  }

  lemma EndIntegers(cfg: Config, s: State, steps: seq<Step>, last: State)
    requires cfg.Valid() && Init(cfg, s) && IsRun(cfg, s, steps, last) && cfg.items <= ITEMS_PER_ID
    requires last.popped == Values(last.accepted)
    requires forall p :: 0 <= p < cfg.producers ==> Project(last.accepted, p) == Upto(cfg.items)
    ensures forall v :: v in last.popped ==> v / 1000000 < cfg.producers
    ensures forall p :: 0 <= p < cfg.producers ==> OfProducer(last.popped, p) == Integers(p, cfg.items)
  {
    InitInv(cfg, s);
    RunFromProducers(cfg, s, steps, last);
    assert last.accepted[..|last.accepted|] == last.accepted;
    IntegersInOrder(last.accepted, |last.accepted|, cfg.producers, cfg.items);
  }
}
