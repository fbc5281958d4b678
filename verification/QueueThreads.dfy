/** The threads of concurrent.c around the bounded queue, as a transition system
    over any number of producers, at least one consumer and any capacity.

    One step is one synchronisation action of one thread: getting the mutex,
    testing the wait condition, releasing the mutex and parking in one go
    (pthread_cond_wait), the critical section together with its signal, releasing
    the mutex, an atomic counter update.  A signal wakes one parked thread of the
    scheduler's choice, or nobody when nobody is parked.  Spurious wakeups are
    separate steps. */
module QueueThreads {
  import opened BlockingQueue
  import opened Sums
  import opened Wrappers

  datatype Config = Config(capacity: nat, producers: nat, consumers: nat, items: nat) {
    predicate Valid() { capacity >= 1 && consumers >= 1 }
  }

  /** Where a thread stands.  `Loop` and `Done` are the ends of the thread's own
      loop; `Tally` and `Sum` are its atomic counter updates. */
  datatype Phase = Loop | Lock | Test | Parked | Woken | Body | Unlock | Tally | Sum | Done

  datatype Producer = Producer(id: nat, next: nat, at: Phase)
  datatype Consumer = Consumer(at: Phase, got: Option<nat>)

  datatype MainPhase =
    | JoinProducer(n: nat) | CloseLock | CloseBody | CloseUnlock
    | JoinConsumer(n: nat) | Exited

  datatype Holder = Free | ByProducer(p: nat) | ByConsumer(c: nat) | ByMain

  /** `accepted` and `popped` record the pushes that took effect, as (producer,
      item number), and the values taken out, in order. */
  datatype State = State(
    ring: Ring, holder: Holder,
    prod: seq<Producer>, cons: seq<Consumer>, main: MainPhase,
    produced: nat, consumed: nat, checksum: nat,
    accepted: seq<(nat, nat)>, popped: seq<nat>)

  datatype Step =
    | ProducerStep(p: nat, wake: Option<nat>)
    | ConsumerStep(c: nat, wake: Option<nat>)
    | MainStep
    | SpuriousProducer(p: nat)
    | SpuriousConsumer(c: nat)
  {
    predicate Spurious() { SpuriousProducer? || SpuriousConsumer? }
  }

  /** The value a producer pushes as its i-th item. */
  function Value(item: (nat, nat)): nat { item.0 * 1000000 + item.1 }

  function Values(log: seq<(nat, nat)>): (v: seq<nat>) {
    seq(|log|, k requires 0 <= k < |log| => Value(log[k]))
  }

  predicate Init(cfg: Config, s: State) {
    && |s.ring.items| == cfg.capacity
    && s.ring.head == s.ring.tail == s.ring.count == 0 && !s.ring.closed
    && s.holder == Free
    && s.prod == seq(cfg.producers, p requires 0 <= p => Producer(p, 0, Loop))
    && s.cons == seq(cfg.consumers, _ => Consumer(Lock, None))
    && s.main == JoinProducer(0)
    && s.produced == s.consumed == s.checksum == 0
    && s.accepted == [] && s.popped == []
  }

  // ---------- one step ----------

  predicate WakesProducer(s: State, wake: Option<nat>) {
    match wake
    case Some(p) => p < |s.prod| && s.prod[p].at == Parked
    case None => forall p :: 0 <= p < |s.prod| ==> s.prod[p].at != Parked
  }

  predicate WakesConsumer(s: State, wake: Option<nat>) {
    match wake
    case Some(c) => c < |s.cons| && s.cons[c].at == Parked
    case None => forall c :: 0 <= c < |s.cons| ==> s.cons[c].at != Parked
  }

  predicate Enabled(cfg: Config, s: State, step: Step) {
    && s.ring.Valid()
    && match step
       case ProducerStep(p, wake) =>
         && p < |s.prod|
         && (match s.prod[p].at
             case Lock | Woken => s.holder == Free
             case Loop | Test | Unlock | Tally => true
             case Body => s.ring.closed || WakesConsumer(s, wake)
             case _ => false)
       case ConsumerStep(c, wake) =>
         && c < |s.cons|
         && (match s.cons[c].at
             case Lock | Woken => s.holder == Free
             case Test | Unlock | Tally | Sum => true
             case Body => s.ring.count == 0 || WakesProducer(s, wake)
             case _ => false)
       case MainStep =>
         (match s.main
          case JoinProducer(n) => n < |s.prod| ==> s.prod[n].at == Done
          case JoinConsumer(n) => n < |s.cons| ==> s.cons[n].at == Done
          case CloseLock => s.holder == Free
          case CloseBody | CloseUnlock => true
          case Exited => false)
       case SpuriousProducer(p) => p < |s.prod| && s.prod[p].at == Parked
       case SpuriousConsumer(c) => c < |s.cons| && s.cons[c].at == Parked
  }

  function WithProducer(s: State, p: nat, at: Phase): State
    requires p < |s.prod|
  {
    s.(prod := s.prod[p := s.prod[p].(at := at)])
  }

  function WithConsumer(s: State, c: nat, at: Phase): State
    requires c < |s.cons|
  {
    s.(cons := s.cons[c := s.cons[c].(at := at)])
  }

  function Next(cfg: Config, s: State, step: Step): State
    requires Enabled(cfg, s, step)
  {
    match step
    case ProducerStep(p, wake) => ProducerNext(cfg, s, p, wake)
    case ConsumerStep(c, wake) => ConsumerNext(cfg, s, c, wake)
    case MainStep => MainNext(cfg, s)
    case SpuriousProducer(p) => WithProducer(s, p, Woken)
    case SpuriousConsumer(c) => WithConsumer(s, c, Woken)
  }

  function ProducerNext(cfg: Config, s: State, p: nat, wake: Option<nat>): State
    requires Enabled(cfg, s, ProducerStep(p, wake))
  {
    var me := s.prod[p];
    match me.at
    case Loop => WithProducer(s, p, if me.next < cfg.items then Lock else Done)
    case Test =>
      if s.ring.count == |s.ring.items| && !s.ring.closed
      then WithProducer(s, p, Parked).(holder := Free)
      else WithProducer(s, p, Body)
    case Body =>
      if s.ring.closed then WithProducer(s, p, Unlock) else
      var s1 := if wake.Some? then WithConsumer(s, wake.value, Woken) else s;
      WithProducer(s1, p, Unlock).(ring := s.ring.Push(Value((me.id, me.next))),
                                   accepted := s.accepted + [(me.id, me.next)])
    case Unlock => WithProducer(s, p, Tally).(holder := Free)
    case Tally => s.(prod := s.prod[p := Producer(me.id, me.next + 1, Loop)],
                     produced := s.produced + 1)
    case _ => WithProducer(s, p, Test).(holder := ByProducer(p))    // Lock, Woken
  }

  function ConsumerNext(cfg: Config, s: State, c: nat, wake: Option<nat>): State
    requires Enabled(cfg, s, ConsumerStep(c, wake))
  {
    var me := s.cons[c];
    match me.at
    case Test =>
      if s.ring.count == 0 && !s.ring.closed
      then WithConsumer(s, c, Parked).(holder := Free)
      else WithConsumer(s, c, Body)
    case Body =>
      if s.ring.count == 0 then s.(cons := s.cons[c := Consumer(Unlock, None)]) else
      var value := s.ring.items[s.ring.head];
      var s1 := if wake.Some? then WithProducer(s, wake.value, Woken) else s;
      s1.(ring := s.ring.Pop(), popped := s.popped + [value],
          cons := s.cons[c := Consumer(Unlock, Some(value))])
    case Unlock => WithConsumer(s, c, if me.got.Some? then Tally else Done).(holder := Free)
    case Tally => WithConsumer(s, c, Sum).(consumed := s.consumed + 1)
    case Sum => WithConsumer(s, c, Lock).(
                  checksum := s.checksum + if me.got.Some? then me.got.value % 97 else 0)
    case _ => WithConsumer(s, c, Test).(holder := ByConsumer(c))    // Lock, Woken
  }

  function Roused(at: Phase): Phase { if at == Parked then Woken else at }

  function MainNext(cfg: Config, s: State): State
    requires Enabled(cfg, s, MainStep)
  {
    match s.main
    case JoinProducer(n) => s.(main := if n < |s.prod| then JoinProducer(n + 1) else CloseLock)
    case CloseLock => s.(main := CloseBody, holder := ByMain)
    case CloseBody =>
      s.(main := CloseUnlock, ring := s.ring.(closed := true),
         prod := seq(|s.prod|, p requires 0 <= p < |s.prod| => s.prod[p].(at := Roused(s.prod[p].at))),
         cons := seq(|s.cons|, c requires 0 <= c < |s.cons| => s.cons[c].(at := Roused(s.cons[c].at))))
    case CloseUnlock => s.(main := JoinConsumer(0), holder := Free)
    case JoinConsumer(n) => s.(main := if n < |s.cons| then JoinConsumer(n + 1) else Exited)
  }

  // ---------- runs ----------

  predicate IsRun(cfg: Config, s: State, steps: seq<Step>, last: State)
    decreases |steps|
  {
    if steps == [] then s == last
    else Enabled(cfg, s, steps[0]) && IsRun(cfg, Next(cfg, s, steps[0]), steps[1..], last)
  }

  // ---------- the invariant ----------

  predicate Holds(at: Phase) { at == Test || at == Body || at == Unlock }

  /** The mutex is held by exactly the thread that is inside. */
  predicate LockInv(s: State) {
    && (forall p :: 0 <= p < |s.prod| ==> (Holds(s.prod[p].at) <==> s.holder == ByProducer(p)))
    && (forall c :: 0 <= c < |s.cons| ==> (Holds(s.cons[c].at) <==> s.holder == ByConsumer(c)))
    && ((s.main == CloseBody || s.main == CloseUnlock) <==> s.holder == ByMain)
    && (s.holder.ByProducer? ==> s.holder.p < |s.prod|)
    && (s.holder.ByConsumer? ==> s.holder.c < |s.cons|)
  }

  predicate IsClosed(m: MainPhase) { m.CloseUnlock? || m.JoinConsumer? || m.Exited? }

  /** How many threads main has joined so far. */
  function ProducersJoined(s: State): nat { if s.main.JoinProducer? then s.main.n else |s.prod| }
  function ConsumersJoined(s: State): nat {
    if s.main.JoinConsumer? then s.main.n else if s.main.Exited? then |s.cons| else 0
  }

  /** The queue is closed by main alone, after every producer has finished. */
  predicate OrderInv(cfg: Config, s: State) {
    && (s.ring.closed <==> IsClosed(s.main))
    && ProducersJoined(s) <= |s.prod| && ConsumersJoined(s) <= |s.cons|
    && (forall p :: 0 <= p < ProducersJoined(s) ==> s.prod[p].at == Done)
    && (forall c :: 0 <= c < ConsumersJoined(s) ==> s.cons[c].at == Done)
    && (forall c :: 0 <= c < |s.cons| && s.cons[c].at == Done ==> s.ring.closed && s.ring.count == 0)
  }

  /** How many of its items a producer has pushed. */
  function Pushed(t: Producer): nat { if t.at == Unlock || t.at == Tally then t.next + 1 else t.next }

  function Upto(n: nat): (r: seq<nat>) { seq(n, i => i) }

  /** The items of one producer in a log, in log order. */
  function Project(log: seq<(nat, nat)>, p: nat): seq<nat> {
    if log == [] then [] else
    var rest := Project(log[..|log| - 1], p);
    if log[|log| - 1].0 == p then rest + [log[|log| - 1].1] else rest
  }

  predicate ProducerOk(cfg: Config, ring: Ring, p: nat, t: Producer) {
    && t.id == p
    && t.at != Sum
    && t.next <= cfg.items
    && (t.at == Done ==> t.next == cfg.items)
    && (t.at != Loop && t.at != Done ==> t.next < cfg.items)
    && (t.at == Body ==> ring.count < cfg.capacity && !ring.closed)
  }

  predicate ConsumerOk(ring: Ring, t: Consumer) {
    && t.at != Loop
    && (t.at == Tally || t.at == Sum ==> t.got.Some?)
    && (t.at == Body && ring.count == 0 ==> ring.closed)
    && (t.at == Unlock && t.got.None? ==> ring.closed && ring.count == 0)
  }

  predicate LocalInv(cfg: Config, s: State) {
    && |s.prod| == cfg.producers && |s.cons| == cfg.consumers && |s.ring.items| == cfg.capacity
    && (forall p :: 0 <= p < |s.prod| ==> ProducerOk(cfg, s.ring, p, s.prod[p]))
    && (forall c :: 0 <= c < |s.cons| ==> ConsumerOk(s.ring, s.cons[c]))
  }

  /** Linearizable FIFO: what was popped, then what is still queued, is what was
      pushed. */
  predicate Fifo(ring: Ring, accepted: seq<(nat, nat)>, popped: seq<nat>) {
    ring.Valid() && popped + ring.Contents() == Values(accepted)
  }

  /** Each producer's part of the log is its own items, in its own order. */
  predicate OwnOrder(accepted: seq<(nat, nat)>, prod: seq<Producer>) {
    forall p :: 0 <= p < |prod| ==> Project(accepted, p) == Upto(Pushed(prod[p]))
  }

  function Waking(at: Phase): nat { if at == Woken || at == Test || at == Body then 1 else 0 }
  function WakingProducer(t: Producer): nat { Waking(t.at) }
  function WakingConsumer(t: Consumer): nat { Waking(t.at) }

  /** No wakeup is lost: while a consumer is parked, every queued item has a
      consumer of its own that is awake and on its way to take it. */
  predicate ItemsAwaited(ring: Ring, cons: seq<Consumer>) {
    forall c :: 0 <= c < |cons| && cons[c].at == Parked ==>
      !ring.closed && ring.count <= SumBy(WakingConsumer, cons)
  }

  /** Dually: while a producer is parked, every free slot has a producer of its
      own that is awake and on its way to fill it. */
  predicate SlotsAwaited(ring: Ring, prod: seq<Producer>) {
    forall p :: 0 <= p < |prod| && prod[p].at == Parked ==>
      !ring.closed && |ring.items| - ring.count <= SumBy(WakingProducer, prod)
  }

  function Mod97(item: nat): nat { item % 97 }
  function Uncounted(t: Consumer): nat { if (t.at == Unlock || t.at == Tally) && t.got.Some? then 1 else 0 }
  function Unsummed(t: Consumer): nat {
    if (t.at == Unlock || t.at == Tally || t.at == Sum) && t.got.Some? then t.got.value % 97 else 0
  }
  function Produced(t: Producer): nat { t.next }

  predicate ProducerTally(s: State) {
    && s.produced == SumBy(Produced, s.prod)
    && |s.accepted| == SumBy(Pushed, s.prod)
  }

  /** The counters lag the queue by exactly what consumers still hold in hand. */
  predicate ConsumerTally(consumed: nat, checksum: nat, cons: seq<Consumer>, popped: seq<nat>) {
    && consumed + SumBy(Uncounted, cons) == |popped|
    && checksum + SumBy(Unsummed, cons) == SumBy(Mod97, popped)
  }

  /** Who may be where. */
  predicate ControlInv(cfg: Config, s: State) {
    cfg.Valid() && LockInv(s) && OrderInv(cfg, s) && LocalInv(cfg, s)
  }

  predicate WakeInv(s: State) { ItemsAwaited(s.ring, s.cons) && SlotsAwaited(s.ring, s.prod) }

  predicate TallyInv(s: State) {
    ProducerTally(s) && ConsumerTally(s.consumed, s.checksum, s.cons, s.popped)
  }

  predicate FifoInv(s: State) { Fifo(s.ring, s.accepted, s.popped) && OwnOrder(s.accepted, s.prod) }

  predicate Inv(cfg: Config, s: State) {
    ControlInv(cfg, s) && FifoInv(s) && WakeInv(s) && TallyInv(s)
  }
}
