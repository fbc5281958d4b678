/** The single-producer single-consumer ring of interrupts.c: `uart0_handler`
    fills it, `rx_get` empties it, and there is no critical section.

    Each step is one access to a volatile object, and the handler and the main
    program interleave in any way: stronger than the hardware, where the handler
    runs to its end once it has preempted.  Values a thread has loaded live in its
    program counter, so they may be stale by the time they are used.  The two loads
    of rx_get's test come in either order, as C leaves it. */
module InterruptRing {
  import opened Bytes

  const RX_SIZE: nat := 64

  type Slot = i: nat | i < RX_SIZE

  function Advance(i: Slot): Slot { (i + 1) % RX_SIZE }

  type Buffer = b: seq<byte> | |b| == RX_SIZE witness seq(RX_SIZE, _ => 0)

  // uart0_handler, one constructor for each point between two accesses
  datatype Handler =
    | Idle
    | CheckFifo                              // about to read FR
    | ReadData                               // about to read DR
    | LoadHead(b: byte)                      // about to load rx_head for `next`
    | LoadTail(b: byte, next: Slot)          // about to load rx_tail and compare
    | Drop                                   // about to bump rx_dropped
    | LoadSlot(b: byte, next: Slot)          // about to load rx_head for the index
    | StoreData(b: byte, next: Slot, slot: Slot)
    | StoreHead(b: byte, next: Slot)         // publish after the data
    | Acknowledge                            // about to write ICR

  // rx_get
  datatype Getter =
    | Outside
    | LoadTailFirst                          // about to load rx_tail for the test
    | LoadHeadAndTest(tail: Slot)            // about to load rx_head and compare
    | LoadHeadFirst                          // the other order: about to load rx_head
    | LoadTailAndTest(head: Slot)            // and then rx_tail and compare
    | LoadIndex                              // about to load rx_tail for the index
    | LoadByte(slot: Slot)                   // about to load rx_buf[slot]
    | LoadTailLast(b: byte)                  // about to load rx_tail for the advance
    | StoreTail(b: byte, next: Slot)
    | Return(got: bool, b: byte)

  /** `arrived` are the bytes the handler read from the UART and `fate` says, for
      each one dealt with, whether it was kept; `accepted` are the bytes put in the
      ring and `returned` those rx_get took out; all in order. `seen` is how many were
      accepted when rx_get last loaded rx_head for its test, and `before` how many had
      been taken out when it was called. */
  datatype State = State(
    buf: Buffer, head: Slot, tail: Slot, dropped: uint32, entries: uint32,
    isr: Handler, main: Getter,
    arrived: seq<byte>, fate: seq<bool>, accepted: seq<byte>, returned: seq<byte>, seen: nat, before: nat)

  datatype Step =
    | Interrupt                              // the handler is entered
    | HandlerStep                            // its next access; the FIFO state is arbitrary
    | FifoByte(b: byte)                      // it finds the FIFO non-empty, then reads this byte
    | CallGet(headFirst: bool)               // main calls rx_get; the order of its first two loads
    | GetterStep                             // its next access
    | LeaveGet                               // it returns

  predicate Init(s: State) {
    && s.head == 0 && s.tail == 0
    && s.dropped == 0 && s.entries == 0
    && s.isr == Idle && s.main == Outside
    && s.arrived == [] && s.accepted == [] && s.fate == [] && s.returned == []
  }

  predicate Enabled(s: State, step: Step) {
    match step
    case Interrupt => s.isr == Idle
    case HandlerStep => s.isr != Idle && !s.isr.ReadData?
    case FifoByte(_) => s.isr.ReadData?
    case CallGet(_) => s.main == Outside
    case GetterStep => s.main != Outside && !s.main.Return?
    case LeaveGet => s.main.Return?
  }

  /** `more` is what the FIFO status bit says when the handler reads it. */
  function Next(s: State, step: Step, more: bool): State
    requires Enabled(s, step)
  {
    match step
    case Interrupt => s.(isr := CheckFifo, entries := Bump(s.entries))
    case HandlerStep => HandlerNext(s, more)
    case FifoByte(b) => s.(isr := LoadHead(b), arrived := s.arrived + [b])
    case CallGet(headFirst) => s.(main := if headFirst then LoadHeadFirst else LoadTailFirst, before := |s.returned|)
    case GetterStep => GetterNext(s)
    case LeaveGet => s.(main := Outside)
  }

  function HandlerNext(s: State, more: bool): State
    requires Enabled(s, HandlerStep)
  {
    match s.isr
    case CheckFifo => s.(isr := if more then ReadData else Acknowledge)
    case LoadHead(b) => s.(isr := LoadTail(b, Advance(s.head)))
    case LoadTail(b, next) => s.(isr := if next == s.tail then Drop else LoadSlot(b, next))
    case Drop => s.(isr := CheckFifo, dropped := Bump(s.dropped), fate := s.fate + [false])
    case LoadSlot(b, next) => s.(isr := StoreData(b, next, s.head))
    case StoreData(b, next, slot) => s.(isr := StoreHead(b, next), buf := s.buf[slot := b])
    case StoreHead(b, next) => s.(isr := CheckFifo, head := next, accepted := s.accepted + [b], fate := s.fate + [true])
    case Acknowledge => s.(isr := Idle)
  }

  function GetterNext(s: State): State
    requires Enabled(s, GetterStep)
  {
    match s.main
    case LoadTailFirst => s.(main := LoadHeadAndTest(s.tail))
    case LoadHeadAndTest(tail) =>
      s.(main := if tail == s.head then Return(false, 0) else LoadIndex, seen := |s.accepted|)
    case LoadHeadFirst => s.(main := LoadTailAndTest(s.head), seen := |s.accepted|)
    case LoadTailAndTest(head) => s.(main := if s.tail == head then Return(false, 0) else LoadIndex)
    case LoadIndex => s.(main := LoadByte(s.tail))
    case LoadByte(slot) => s.(main := LoadTailLast(s.buf[slot]))
    case LoadTailLast(b) => s.(main := StoreTail(b, Advance(s.tail)))
    case StoreTail(b, next) => s.(main := Return(true, b), tail := next, returned := s.returned + [b])
  }

  // ---------- the invariant ----------

  /** Bytes published and not yet returned. */
  function Waiting(s: State): int { |s.accepted| - |s.returned| }

  /** The ring read as a window on the accepted bytes: byte number k sits in slot
      k % RX_SIZE from the time it is published until it is returned. */
  predicate RingInv(s: State) {
    && s.head == |s.accepted| % RX_SIZE
    && s.tail == |s.returned| % RX_SIZE
    && 0 <= Waiting(s) < RX_SIZE
    && s.returned == s.accepted[..|s.returned|]
    && (forall k :: |s.returned| <= k < |s.accepted| ==> s.buf[k % RX_SIZE] == s.accepted[k])
  }

  predicate HandlerInv(s: State) {
    match s.isr
    case LoadTail(_, next) => next == Advance(s.head)
    case LoadSlot(_, next) => next == Advance(s.head) && Waiting(s) < RX_SIZE - 1
    case StoreData(_, next, slot) => next == Advance(s.head) && Waiting(s) < RX_SIZE - 1 && slot == s.head
    case StoreHead(b, next) => next == Advance(s.head) && Waiting(s) < RX_SIZE - 1 && s.buf[s.head] == b
    case _ => true
  }

  predicate GetterInv(s: State) {
    match s.main
    case LoadHeadAndTest(tail) => tail == s.tail
    case LoadTailAndTest(head) => |s.returned| <= s.seen <= |s.accepted| && head == s.seen % RX_SIZE
    case LoadIndex => Waiting(s) > 0
    case LoadByte(slot) => Waiting(s) > 0 && slot == s.tail
    case LoadTailLast(b) => 0 < Waiting(s) <= |s.accepted| && b == s.accepted[|s.returned|]
    case StoreTail(b, next) =>
      0 < Waiting(s) <= |s.accepted| && b == s.accepted[|s.returned|] && next == Advance(s.tail)
    case _ => true
  }

  /** The bytes of a log that were kept. */
  function Kept(bytes: seq<byte>, fate: seq<bool>): seq<byte>
    requires |fate| == |bytes|
  {
    if bytes == [] then [] else
    var n := |bytes| - 1;
    Kept(bytes[..n], fate[..n]) + if fate[n] then [bytes[n]] else []
  }

  function Lost(fate: seq<bool>): nat {
    if fate == [] then 0 else Lost(fate[..|fate| - 1]) + if fate[|fate| - 1] then 0 else 1
  }

  /** Whether the handler holds a byte it has neither published nor dropped. */
  predicate HasByte(h: Handler) {
    h.LoadHead? || h.LoadTail? || h.Drop? || h.LoadSlot? || h.StoreData? || h.StoreHead?
  }

  predicate FateInv(s: State) {
    && |s.arrived| == |s.fate| + (if HasByte(s.isr) then 1 else 0)
    && (HasByte(s.isr) && !s.isr.Drop? ==> s.isr.b == s.arrived[|s.fate|])
    && s.accepted == Kept(s.arrived[..|s.fate|], s.fate)
    && s.dropped as int == Lost(s.fate) % 0x1_0000_0000
  }

  /** A call of rx_get takes out the one byte it returns, or none. */
  predicate CallInv(s: State) {
    match s.main
    case Outside => true
    case Return(got, b) =>
      && |s.returned| == s.before + (if got then 1 else 0)
      && (got ==> s.returned[s.before] == b)
    case _ => |s.returned| == s.before
  }

  predicate Inv(s: State) { RingInv(s) && HandlerInv(s) && GetterInv(s) && FateInv(s) && CallInv(s) }

  // ---------- every step of either side keeps it ----------

  /** The slot k places after rx_tail. */
  function SlotAt(tail: Slot, k: nat): Slot { (tail + k) % RX_SIZE }

  lemma SlotAtWindow(t: nat, k: nat)
    ensures SlotAt(t % RX_SIZE, k) == (t + k) % RX_SIZE
  {
    WholeTurns(t / RX_SIZE, t % RX_SIZE + k);
  }

  lemma WholeTurns(turns: nat, x: nat)
    ensures (RX_SIZE * turns + x) % RX_SIZE == x % RX_SIZE
  {
    assert RX_SIZE * turns + x == RX_SIZE * (turns + x / RX_SIZE) + x % RX_SIZE;
  }

  /** Fewer than RX_SIZE apart, two byte numbers sit in different slots. */
  lemma SlotsDiffer(k: nat, n: nat)
    requires k < n < k + RX_SIZE
    ensures k % RX_SIZE != n % RX_SIZE
  {
  }

  lemma StoreDataKeepsRing(s: State)
    requires RingInv(s) && HandlerInv(s) && s.isr.StoreData?
    ensures RingInv(HandlerNext(s, false)) && HandlerInv(HandlerNext(s, false))
  {
    forall k | |s.returned| <= k < |s.accepted|
      ensures k % RX_SIZE != s.isr.slot
    {
      SlotsDiffer(k, |s.accepted|);
    }
  }

  lemma PublishKeepsRing(s: State)
    requires RingInv(s) && HandlerInv(s) && s.isr.StoreHead?
    ensures RingInv(HandlerNext(s, false)) && HandlerInv(HandlerNext(s, false))
  {
    var after := HandlerNext(s, false);
    assert after.accepted[..|s.returned|] == s.accepted[..|s.returned|];
    SlotAtWindow(|s.accepted|, 1);
  }

  lemma HandlerKeepsRing(s: State, more: bool)
    requires RingInv(s) && HandlerInv(s) && Enabled(s, HandlerStep)
    ensures RingInv(HandlerNext(s, more)) && HandlerInv(HandlerNext(s, more))
  {
    if s.isr.StoreData? {
      StoreDataKeepsRing(s);
    } else if s.isr.StoreHead? {
      PublishKeepsRing(s);
    } else if s.isr.LoadTail? && s.isr.next != s.tail {
      FullTest(s);
    }
  }

  /** The handler's test `next == rx_tail` decides exactly whether the ring is full. */
  lemma FullTest(s: State)
    requires RingInv(s) && HandlerInv(s) && s.isr.LoadTail?
    ensures s.isr.next == s.tail <==> Waiting(s) == RX_SIZE - 1
  {
    var h, t := |s.accepted|, |s.returned|;
    SlotAtWindow(h, 1);
    if h + 1 < t + RX_SIZE { SlotsDiffer(t, h + 1); }
  }

  lemma HandlerKeepsGetter(s: State, more: bool)
    requires RingInv(s) && HandlerInv(s) && GetterInv(s) && Enabled(s, HandlerStep)
    ensures GetterInv(HandlerNext(s, more))
  {
  }

  /** One more byte dealt with. */
  lemma FateSealed(s: State, kept: bool)
    requires |s.fate| < |s.arrived|
    ensures var n := |s.fate|;
            && Kept(s.arrived[..n + 1], s.fate + [kept])
               == Kept(s.arrived[..n], s.fate) + (if kept then [s.arrived[n]] else [])
            && Lost(s.fate + [kept]) == Lost(s.fate) + (if kept then 0 else 1)
  {
    var n := |s.fate|;
    assert s.arrived[..n + 1][..n] == s.arrived[..n] && (s.fate + [kept])[..n] == s.fate;
  }

  lemma DropKeepsFate(s: State)
    requires FateInv(s) && s.isr.Drop?
    ensures FateInv(HandlerNext(s, false))
  {
    FateSealed(s, false);
    BumpCounts(s.dropped, Lost(s.fate));
  }

  lemma BumpCounts(counter: uint32, n: nat)
    requires counter as int == n % 0x1_0000_0000
    ensures Bump(counter) as int == (n + 1) % 0x1_0000_0000
  {
  }

  lemma PublishKeepsFate(s: State)
    requires FateInv(s) && s.isr.StoreHead?
    ensures FateInv(HandlerNext(s, false))
  {
    FateSealed(s, true);
  }

  lemma HandlerKeepsFate(s: State, more: bool)
    requires FateInv(s) && Enabled(s, HandlerStep)
    ensures FateInv(HandlerNext(s, more))
  {
    if s.isr.Drop? {
      DropKeepsFate(s);
    } else if s.isr.StoreHead? {
      PublishKeepsFate(s);
    }
  }

  lemma ByteKeepsFate(s: State, b: byte)
    requires FateInv(s) && s.isr.ReadData?
    ensures FateInv(Next(s, FifoByte(b), false))
  {
    assert (s.arrived + [b])[..|s.fate|] == s.arrived[..|s.fate|];
  }

  lemma ConsumeKeepsRing(s: State)
    requires RingInv(s) && HandlerInv(s) && GetterInv(s) && s.main.StoreTail?
    ensures RingInv(GetterNext(s)) && HandlerInv(GetterNext(s))
  {
    var t := |s.returned|;
    SlotAtWindow(t, 1);
    assert s.accepted[..t + 1] == s.accepted[..t] + [s.accepted[t]];
  }

  lemma GetterKeepsRing(s: State)
    requires RingInv(s) && HandlerInv(s) && GetterInv(s) && Enabled(s, GetterStep)
    ensures RingInv(GetterNext(s)) && HandlerInv(GetterNext(s)) && GetterInv(GetterNext(s))
  {
    if s.main.StoreTail? {
      ConsumeKeepsRing(s);
    } else if s.main.LoadTailAndTest? {
      EmptyTest(s);
    }
  }

  /** With rx_head loaded first the test decides whether the ring was empty then. */
  lemma EmptyTest(s: State)
    requires RingInv(s) && GetterInv(s) && s.main.LoadTailAndTest?
    ensures s.tail == s.main.head <==> s.seen == |s.returned|
  {
    if s.seen > |s.returned| { SlotsDiffer(|s.returned|, s.seen); }
  }

  lemma HandlerStepInv(s: State, more: bool)
    requires Inv(s) && Enabled(s, HandlerStep)
    ensures Inv(HandlerNext(s, more))
  {
    HandlerKeepsRing(s, more);
    HandlerKeepsGetter(s, more);
    HandlerKeepsFate(s, more);
  }

  lemma GetterKeepsFate(s: State)
    requires FateInv(s) && Enabled(s, GetterStep)
    ensures FateInv(GetterNext(s))
  {
  }

  lemma GetterKeepsCall(s: State)
    requires CallInv(s) && Enabled(s, GetterStep)
    ensures CallInv(GetterNext(s))
  {
  }

  lemma GetterStepInv(s: State)
    requires Inv(s) && Enabled(s, GetterStep)
    ensures Inv(GetterNext(s))
  {
    GetterKeepsCall(s);
    GetterKeepsRing(s);
    GetterKeepsFate(s);
  }

  lemma NextInv(s: State, step: Step, more: bool)
    requires Inv(s) && Enabled(s, step)
    ensures Inv(Next(s, step, more))
  {
    match step
    case HandlerStep => HandlerStepInv(s, more);
    case GetterStep => GetterStepInv(s);
    case FifoByte(b) => ByteKeepsFate(s, b);
    case _ =>
  }

  // ---------- whole runs ----------

  predicate IsRun(s: State, steps: seq<(Step, bool)>, last: State)
    decreases |steps|
  {
    if steps == [] then s == last
    else Enabled(s, steps[0].0) && IsRun(Next(s, steps[0].0, steps[0].1), steps[1..], last)
  }

  lemma {:induction false} RunInv(s: State, steps: seq<(Step, bool)>, last: State)
    requires Inv(s) && IsRun(s, steps, last)
    ensures Inv(last)
    decreases |steps|
  {
    if steps != [] {
      NextInv(s, steps[0].0, steps[0].1);
      RunInv(Next(s, steps[0].0, steps[0].1), steps[1..], last);
    }
  }

  /** What is in the ring, oldest first, read through rx_tail and rx_head. */
  function RingContents(s: State): (c: seq<byte>) {
    seq((s.head + RX_SIZE - s.tail) % RX_SIZE, k requires 0 <= k => s.buf[SlotAt(s.tail, k)])
  }

  lemma WindowLength(h: nat, t: nat)
    requires t <= h < t + RX_SIZE
    ensures (h % RX_SIZE + RX_SIZE - t % RX_SIZE) % RX_SIZE == h - t
  {
    SlotAtWindow(t, h - t);
    assert h % RX_SIZE == SlotAt(t % RX_SIZE, h - t);
  }

  lemma ContentsAreWaiting(s: State)
    requires RingInv(s)
    ensures RingContents(s) == s.accepted[|s.returned|..]
  {
    var t := |s.returned|;
    WindowLength(|s.accepted|, t);
    forall k | 0 <= k < Waiting(s)
      ensures RingContents(s)[k] == s.accepted[t + k]
    {
      SlotAtWindow(t, k);
    }
  }

  lemma {:induction false} LostAndKept(bytes: seq<byte>, fate: seq<bool>)
    requires |fate| == |bytes|
    ensures |Kept(bytes, fate)| + Lost(fate) == |bytes|
    decreases |bytes|
  {
    if bytes != [] { LostAndKept(bytes[..|bytes| - 1], fate[..|bytes| - 1]); }
  }

  /** What a call of rx_get that has come to its end gives its caller. */
  function InHand(s: State): seq<byte> { if s.main.Return? && s.main.got then [s.main.b] else [] }

  /** What the callers of rx_get are given in a run, in order. */
  function Given(s: State, steps: seq<(Step, bool)>, last: State): seq<byte>
    requires IsRun(s, steps, last)
    decreases |steps|
  {
    if steps == [] then []
    else (if steps[0].0.LeaveGet? then InHand(s) else []) + Given(Next(s, steps[0].0, steps[0].1), steps[1..], last)
  }

  lemma OneStepGives(s: State, step: Step, more: bool, given: seq<byte>)
    requires Enabled(s, step) && s.returned == given + InHand(s)
    ensures var after := Next(s, step, more);
            after.returned == given + (if step.LeaveGet? then InHand(s) else []) + InHand(after)
  {
  }

  /** The log of bytes taken out is what the callers were given. */
  lemma {:induction false} GivenIsReturned(s: State, steps: seq<(Step, bool)>, last: State, given: seq<byte>)
    requires IsRun(s, steps, last) && s.returned == given + InHand(s)
    ensures last.returned == given + Given(s, steps, last) + InHand(last)
    decreases |steps|
  {
    if steps == [] {
      assert given + [] == given;
    } else {
      var now := if steps[0].0.LeaveGet? then InHand(s) else [];
      var next := Next(s, steps[0].0, steps[0].1);
      OneStepGives(s, steps[0].0, steps[0].1, given);
      GivenIsReturned(next, steps[1..], last, given + now);
      Assoc(given, now, Given(next, steps[1..], last));
    }
  }

  /** Every call of rx_get returns the byte it takes out of the ring, and takes out no
      other; one that reports an empty ring takes out none. */
  lemma CallReturnsItsByte(s: State, steps: seq<(Step, bool)>, last: State)
    requires Init(s) && IsRun(s, steps, last) && last.main.Return?
    ensures |last.returned| == last.before + (if last.main.got then 1 else 0)
    ensures last.main.got ==> last.returned[|last.returned| - 1] == last.main.b
  {
    RunInv(s, steps, last);
  }

  /** The ring needs no critical section. However the handler and rx_get interleave,
      the bytes callers were given followed by the bytes in the ring are the bytes kept,
      which are the arrived ones less those counted in rx_dropped, in order. */
  lemma RingIsFifo(s: State, steps: seq<(Step, bool)>, last: State)
    requires Init(s) && IsRun(s, steps, last)
    ensures |last.fate| <= |last.arrived| <= |last.fate| + 1
    ensures last.returned + RingContents(last) == Kept(last.arrived[..|last.fate|], last.fate)
    ensures last.returned == Given(s, steps, last) + InHand(last)
    ensures |last.returned| + |RingContents(last)| + Lost(last.fate) == |last.fate|
    ensures last.dropped as int == Lost(last.fate) % 0x1_0000_0000
  {
    RunInv(s, steps, last);
    ContentsAreWaiting(last);
    assert last.returned + last.accepted[|last.returned|..] == last.accepted;
    LostAndKept(last.arrived[..|last.fate|], last.fate);
    GivenIsReturned(s, steps, last, []);
    assert [] + Given(s, steps, last) == Given(s, steps, last);
  }

  function Interrupts(steps: seq<(Step, bool)>): nat {
    if steps == [] then 0 else (if steps[0].0.Interrupt? then 1 else 0) + Interrupts(steps[1..])
  }

  /** isr_entries counts the interrupts, on 32 bits. */
  lemma {:induction false} EntriesCount(s: State, steps: seq<(Step, bool)>, last: State, n: nat)
    requires IsRun(s, steps, last) && s.entries as int == n % 0x1_0000_0000
    ensures last.entries as int == (n + Interrupts(steps)) % 0x1_0000_0000
    decreases |steps|
  {
    if steps != [] {
      BumpCounts(s.entries, n);
      EntriesCount(Next(s, steps[0].0, steps[0].1), steps[1..], last, if steps[0].0.Interrupt? then n + 1 else n);
    }
  }

  /** The handler never stores into a slot that holds a waiting byte, nor into the
      one rx_get is reading. */
  lemma StoreIsAside(s: State, steps: seq<(Step, bool)>, last: State)
    requires Init(s) && IsRun(s, steps, last) && last.isr.StoreData?
    ensures forall k :: 0 <= k < |RingContents(last)| ==> SlotAt(last.tail, k) != last.isr.slot
    ensures last.main.LoadByte? ==> last.main.slot != last.isr.slot
  {
    RunInv(s, steps, last);
    ContentsAreWaiting(last);
    forall k | 0 <= k < |RingContents(last)|
      ensures SlotAt(last.tail, k) != last.isr.slot
    {
      SlotAtWindow(|last.returned|, k);
      SlotsDiffer(|last.returned| + k, |last.accepted|);
    }
    if last.main.LoadByte? { SlotsDiffer(|last.returned|, |last.accepted|); }
  }

  /** In any reachable state the two tests mean what they say: the handler drops a byte
      exactly when RX_SIZE - 1 bytes wait, and rx_get reports an empty ring exactly when
      none waits, if it loads rx_head last, and none waited when it loaded rx_head, if it
      loads that first. */
  lemma TestsAreExact(s: State, steps: seq<(Step, bool)>, last: State)
    requires Init(s) && IsRun(s, steps, last)
    ensures last.isr.LoadTail? ==>
              (HandlerNext(last, false).isr == Drop <==> |RingContents(last)| == RX_SIZE - 1)
    ensures last.main.LoadHeadAndTest? ==>
              (GetterNext(last).main == Return(false, 0) <==> |RingContents(last)| == 0)
    ensures last.main.LoadHeadFirst? ==> GetterNext(last).seen == |last.returned| + |RingContents(last)|
    ensures last.main.LoadTailAndTest? ==>
              (GetterNext(last).main == Return(false, 0) <==> last.seen == |last.returned|)
  {
    RunInv(s, steps, last);
    ContentsAreWaiting(last);
    if last.isr.LoadTail? { FullTest(last); }
    if last.main.LoadHeadAndTest? && Waiting(last) > 0 { SlotsDiffer(|last.returned|, |last.accepted|); }
    if last.main.LoadTailAndTest? { EmptyTest(last); }
  }
}
