/** The registry of connections of evserver.c and what its event loop does to it, on
    values, and the invariants of every run. */
module EventLoopSpec {
  import opened Bytes
  import opened ConnectionSpec
  import opened Sums

  const MAX_FD: nat := 65536
  const IDLE_LIMIT: int := 30
  const SWEEP_EVERY: int := 5

  /** conns[fd], with the history of what it points to. */
  datatype Slot = Free | Held(fd: nat, conn: Conn, received: seq<byte>, delivered: seq<byte>, lastActive: int)

  /** The globals, and what the kernel watches: each registered fd, and whether for
      writability too. */
  datatype State = State(slots: seq<Slot>, interest: map<nat, bool>, live: int, peak: int, total: int)

  /** What accept returns, whether what follows succeeds (fcntl, calloc, epoll_ctl), and
      the time it is put down for. */
  datatype AcceptResult =
    | AcceptInterrupted
    | AcceptFailed
    | Offer(fd: nat, nonblocking: bool, memory: bool, watched: bool, at: int)

  /** One event from epoll_wait, with the answers the socket will give. `readAt` is the
      time at the last recv that brings bytes and `writeAt` at the last send that takes
      some: last_active is set at each of them, and nothing looks at it in between. */
  datatype Event =
    | Listener(offers: seq<AcceptResult>)
    | Wake
    | Ready(fd: nat, hangup: bool, readable: bool, writable: bool,
            recvs: seq<RecvResult>, readAt: int, sends: seq<SendResult>, writeAt: int)

  // ---------- the steps ----------

  /** Closing, and nothing left to send. */
  predicate Spent(c: Conn) { c.closing && c.sent >= |c.out| }

  predicate WantsWrite(c: Conn) { |c.out| > c.sent }

  /** conn_close */
  function Close(s: State, fd: nat): (t: State)
    requires fd < |s.slots|
    ensures |t.slots| == |s.slots|
  {
    s.(slots := s.slots[fd := Free], interest := s.interest - {fd}, live := s.live - 1)
  }

  function OnRead(slot: Slot, recvs: seq<RecvResult>, now: int): (t: Slot)
    requires slot.Held? && slot.conn.Valid()
    ensures t.Held? && t.fd == slot.fd && t.conn.Valid()
  {
    var r := Readable(SERVER, slot.conn, recvs);
    slot.(conn := r.conn, received := slot.received + r.taken,
          lastActive := if r.taken == [] then slot.lastActive else now)
  }

  function OnWrite(slot: Slot, sends: seq<SendResult>, now: int): (t: Slot)
    requires slot.Held? && slot.conn.Valid()
    ensures t.Held? && t.fd == slot.fd && t.conn.Valid()
  {
    var w := Writable(slot.conn, sends);
    slot.(conn := w.conn, delivered := slot.delivered + w.delivered,
          lastActive := if w.delivered == [] then slot.lastActive else now)
  }

  /** conn_readable and conn_writable, as the event asks. */
  function Attend(slot: Slot, e: Event): (t: Slot)
    requires slot.Held? && slot.conn.Valid() && e.Ready?
    ensures t.Held? && t.fd == slot.fd && t.conn.Valid()
  {
    var read := if e.readable then OnRead(slot, e.recvs, e.readAt) else slot;
    if e.writable then OnWrite(read, e.sends, e.writeAt) else read
  }

  /** What the loop does with a connection that has been attended to. */
  function Settle(s: State, fd: nat): (t: State)
    requires fd < |s.slots| && s.slots[fd].Held?
    ensures |t.slots| == |s.slots|
  {
    if Spent(s.slots[fd].conn) then Close(s, fd)
    else s.(interest := s.interest[fd := WantsWrite(s.slots[fd].conn)])
  }

  function Dispatch(s: State, e: Event): (t: State)
    requires |s.slots| == MAX_FD && Views(s) && e.Ready?
    ensures |t.slots| == MAX_FD
  {
    if e.fd >= MAX_FD || s.slots[e.fd].Free? then s
    else if e.hangup then Close(s, e.fd)
    else Settle(s.(slots := s.slots[e.fd := Attend(s.slots[e.fd], e)]), e.fd)
  }

  /** The connections are connections. */
  predicate Views(s: State) {
    forall fd :: 0 <= fd < |s.slots| && s.slots[fd].Held? ==> s.slots[fd].conn.Valid()
  }

  predicate Kept(o: AcceptResult) { o.Offer? && o.nonblocking && o.memory && o.watched }

  function Max(a: int, b: int): int { if a > b then a else b }

  /** The body of accept_new's loop, for a fresh fd. */
  function Admit(s: State, o: AcceptResult): (t: State)
    requires o.Offer? && o.fd < |s.slots|
    ensures |t.slots| == |s.slots|
  {
    if !Kept(o) then s
    else
      var c := Accepted(SERVER);
      State(s.slots[o.fd := Held(o.fd, c, [], [], o.at)], s.interest[o.fd := WantsWrite(c)],
            s.live + 1, Max(s.peak, s.live + 1), s.total + 1)
  }

  /** accept_new. The kernel never hands out an fd that is in use: such an offer counts
      as a failed accept. */
  function AcceptNew(s: State, offers: seq<AcceptResult>): (t: State)
    requires |s.slots| == MAX_FD
    ensures |t.slots| == MAX_FD
    decreases |offers|
  {
    if offers == [] || offers[0].AcceptFailed? then s
    else if offers[0].AcceptInterrupted? then AcceptNew(s, offers[1..])
    else if offers[0].fd >= MAX_FD || s.slots[offers[0].fd].Held? then s
    else AcceptNew(Admit(s, offers[0]), offers[1..])
  }

  predicate Idle(slot: Slot, now: int) { slot.Held? && now - slot.lastActive > IDLE_LIMIT }

  /** sweep_idle, for the first n fds. */
  function Sweep(s: State, n: nat, now: int): (t: State)
    requires n <= |s.slots|
    ensures |t.slots| == |s.slots|
  {
    if n == 0 then s
    else
      var before := Sweep(s, n - 1, now);
      if Idle(s.slots[n - 1], now) then Close(before, n - 1) else before
  }

  // ---------- the invariant ----------

  /** A connection in the table: it knows its fd, it is where the stream puts it, it is
      not finished, and the kernel watches it for writability exactly while there is
      something to write. */
  predicate SlotOk(fd: nat, slot: Slot, interest: map<nat, bool>) {
    match slot
    case Free => fd !in interest
    case Held(f, conn, received, delivered, _) =>
      && f == fd && conn.Valid() && Faithful(SERVER, conn, received, delivered) && !Spent(conn)
      && fd in interest && interest[fd] == WantsWrite(conn)
  }

  function Weight(slot: Slot): nat { if slot.Held? then 1 else 0 }

  /** The number of non-null entries. */
  function Live(slots: seq<Slot>): nat { SumBy(Weight, slots) }

  predicate Registered(s: State) {
    && |s.slots| == MAX_FD
    && (forall fd :: 0 <= fd < MAX_FD ==> SlotOk(fd, s.slots[fd], s.interest))
    && (forall fd :: fd in s.interest ==> fd < MAX_FD)
  }

  predicate Inv(s: State) {
    && Registered(s)
    && s.live == Live(s.slots)
    && s.live <= s.peak <= s.total
  }

  lemma InvViews(s: State)
    requires Registered(s)
    ensures Views(s)
  {
    forall fd | 0 <= fd < |s.slots| && s.slots[fd].Held? ensures s.slots[fd].conn.Valid() {
      assert SlotOk(fd, s.slots[fd], s.interest);
    }
  }

  /** One entry changes, and the kernel's view of it. */
  lemma ChangeSlot(s: State, fd: nat, slot: Slot, t: State)
    requires Registered(s) && fd < MAX_FD && t.slots == s.slots[fd := slot]
    requires forall g :: g != fd ==>
               (g in t.interest <==> g in s.interest) && (g in s.interest ==> t.interest[g] == s.interest[g])
    requires SlotOk(fd, slot, t.interest)
    ensures Registered(t) && Live(t.slots) == Live(s.slots) - Weight(s.slots[fd]) + Weight(slot)
  {
    SumUpdate(Weight, s.slots, fd, slot);
    forall g | 0 <= g < MAX_FD ensures SlotOk(g, t.slots[g], t.interest) {
      assert SlotOk(g, s.slots[g], s.interest);
    }
  }

  lemma CloseInv(s: State, fd: nat)
    requires Inv(s) && fd < MAX_FD && s.slots[fd].Held?
    ensures Inv(Close(s, fd))
  {
    ChangeSlot(s, fd, Free, Close(s, fd));
  }

  lemma AttendFaithful(slot: Slot, e: Event)
    requires slot.Held? && slot.conn.Valid() && e.Ready? && Faithful(SERVER, slot.conn, slot.received, slot.delivered)
    ensures var t := Attend(slot, e); Faithful(SERVER, t.conn, t.received, t.delivered)
  {
    var read := if e.readable then OnRead(slot, e.recvs, e.readAt) else slot;
    if e.readable {
      if slot.conn.closing {
        ReadableStaysClosing(SERVER, slot.conn, e.recvs);
      } else {
        ReadableFaithful(SERVER, slot.conn, slot.received, slot.delivered, e.recvs);
      }
    }
    if e.writable {
      WritableFaithful(SERVER, read.conn, read.received, read.delivered, e.sends);
    }
  }

  /** Whatever event, it is handled with the invariant kept. */
  lemma DispatchInv(s: State, e: Event)
    requires Inv(s) && e.Ready?
    ensures Views(s) && Inv(Dispatch(s, e))
  {
    InvViews(s);
    if e.fd < MAX_FD && s.slots[e.fd].Held? {
      assert SlotOk(e.fd, s.slots[e.fd], s.interest);
      if e.hangup {
        CloseInv(s, e.fd);
      } else {
        var slot := Attend(s.slots[e.fd], e);
        AttendFaithful(s.slots[e.fd], e);
        SettleInv(s, e.fd, slot);
      }
    }
  }

  lemma SettleInv(s: State, fd: nat, slot: Slot)
    requires Inv(s) && fd < MAX_FD && s.slots[fd].Held?
    requires slot.Held? && slot.fd == fd && slot.conn.Valid()
    requires Faithful(SERVER, slot.conn, slot.received, slot.delivered)
    ensures Inv(Settle(s.(slots := s.slots[fd := slot]), fd))
  {
    var t := Settle(s.(slots := s.slots[fd := slot]), fd);
    assert s.slots[fd := slot][fd := Free] == s.slots[fd := Free];
    ChangeSlot(s, fd, t.slots[fd], t);
  }

  lemma AdmitInv(s: State, o: AcceptResult)
    requires Inv(s) && o.Offer? && o.fd < MAX_FD && s.slots[o.fd].Free?
    ensures Inv(Admit(s, o))
  {
    if Kept(o) {
      SessionFaithful(SERVER, []);
      var t := Admit(s, o);
      ChangeSlot(s, o.fd, t.slots[o.fd], t);
    }
  }

  lemma {:induction false} AcceptInv(s: State, offers: seq<AcceptResult>)
    requires Inv(s)
    ensures Inv(AcceptNew(s, offers))
    decreases |offers|
  {
    if offers != [] && !offers[0].AcceptFailed? {
      if offers[0].AcceptInterrupted? {
        AcceptInv(s, offers[1..]);
      } else if offers[0].fd < MAX_FD && s.slots[offers[0].fd].Free? {
        AdmitInv(s, offers[0]);
        AcceptInv(Admit(s, offers[0]), offers[1..]);
      }
    }
  }

  /** The sweep closes the connections that have been idle too long, and no other. */
  lemma {:induction false} SweepCloses(s: State, n: nat, now: int)
    requires Inv(s) && n <= MAX_FD
    ensures var t := Sweep(s, n, now);
            && Inv(t) && t.peak == s.peak && t.total == s.total
            && (forall fd :: 0 <= fd < MAX_FD ==>
                  t.slots[fd] == if fd < n && Idle(s.slots[fd], now) then Free else s.slots[fd])
    decreases n
  {
    if n > 0 {
      SweepCloses(s, n - 1, now);
      if Idle(s.slots[n - 1], now) {
        CloseInv(Sweep(s, n - 1, now), n - 1);
      }
    }
  }

  // ---------- every run of the loop ----------

  /** One event of a batch. */
  function Handle(s: State, e: Event): (t: State)
    requires Inv(s)
    ensures Inv(t)
  {
    match e
    case Listener(offers) => AcceptInv(s, offers); AcceptNew(s, offers)
    case Wake => s
    case Ready(_, _, _, _, _, _, _, _) => DispatchInv(s, e); Dispatch(s, e)
  }

  function HandleAll(s: State, events: seq<Event>): (t: State)
    requires Inv(s)
    ensures Inv(t)
    decreases |events|
  {
    if events == [] then s else HandleAll(Handle(s, events[0]), events[1..])
  }

  /** What epoll_wait gives: nothing because of a signal, an error, or events; then the
      clock is read for the test, for the sweep and for the note of it. */
  datatype Poll = PollInterrupted | PollFailed | Batch(events: seq<Event>, tested: int, swept: int, noted: int)

  datatype Loop = Loop(state: State, running: bool, lastSweep: int)

  /** One pass of main's loop. */
  function Pass(l: Loop, p: Poll): (m: Loop)
    requires Inv(l.state)
    ensures Inv(m.state)
  {
    match p
    case PollInterrupted => l
    case PollFailed => l.(running := false)
    case Batch(events, tested, swept, noted) =>
      var s, running := HandleAll(l.state, events), l.running && Wake !in events;
      if tested - l.lastSweep >= SWEEP_EVERY
      then SweepCloses(s, MAX_FD, swept); Loop(Sweep(s, MAX_FD, swept), running, noted)
      else Loop(s, running, l.lastSweep)
  }

  /** The whole loop: the invariant of the registry holds at its head, whatever happens. */
  function Run(l: Loop, polls: seq<Poll>): (m: Loop)
    requires Inv(l.state)
    ensures Inv(m.state)
    decreases |polls|
  {
    if polls == [] || !l.running then l else Run(Pass(l, polls[0]), polls[1..])
  }

  const STARTED: State := State(seq(MAX_FD, _ => Free), map[], 0, 0, 0)

  lemma {:induction false} NoneLive(slots: seq<Slot>)
    requires forall fd :: 0 <= fd < |slots| ==> slots[fd].Free?
    ensures Live(slots) == 0
  {
    SumAtMost(Weight, slots, 0);
  }

  lemma StartedInv()
    ensures Inv(STARTED)
  {
    NoneLive(STARTED.slots);
  }

  /** The loop over the table after the loop over events, for the first n fds. */
  function CloseAll(s: State, n: nat): (t: State)
    requires n <= |s.slots|
    ensures |t.slots| == |s.slots|
  {
    if n == 0 then s
    else
      var before := CloseAll(s, n - 1);
      if s.slots[n - 1].Held? then Close(before, n - 1) else before
  }

  lemma {:induction false} CloseAllCloses(s: State, n: nat)
    requires Inv(s) && n <= MAX_FD
    ensures var t := CloseAll(s, n);
            && Inv(t) && t.peak == s.peak && t.total == s.total
            && (forall fd :: 0 <= fd < MAX_FD ==> t.slots[fd] == if fd < n then Free else s.slots[fd])
    decreases n
  {
    if n > 0 {
      CloseAllCloses(s, n - 1);
      if s.slots[n - 1].Held? {
        CloseInv(CloseAll(s, n - 1), n - 1);
      }
    }
  }

  /** After the server has stopped no connection is open, counted or watched. */
  lemma StoppedClean(s: State)
    requires Inv(s)
    ensures var t := CloseAll(s, MAX_FD);
            && t.live == 0 && t.interest == map[]
            && (forall fd :: 0 <= fd < MAX_FD ==> t.slots[fd].Free?)
            && t.peak == s.peak && t.total == s.total
  {
    var t := CloseAll(s, MAX_FD);
    CloseAllCloses(s, MAX_FD);
    NoneLive(t.slots);
    forall fd ensures fd !in t.interest {
      if 0 <= fd < MAX_FD { assert SlotOk(fd, t.slots[fd], t.interest); }
    }
  }

  /** No event on one connection changes what another has said, heard or is owed. */
  lemma EventIsLocal(s: State, e: Event, fd: nat)
    requires Inv(s) && e.Ready? && fd < MAX_FD && fd != e.fd
    ensures Handle(s, e).slots[fd] == s.slots[fd]
  {
  }

  lemma {:induction false} AcceptPeak(s: State, offers: seq<AcceptResult>)
    requires Inv(s)
    ensures var t := AcceptNew(s, offers);
            && t.peak == Max(s.peak, t.live)
            && t.total - s.total == t.live - s.live >= 0
    decreases |offers|
  {
    if offers != [] && !offers[0].AcceptFailed? {
      if offers[0].AcceptInterrupted? {
        AcceptPeak(s, offers[1..]);
      } else if offers[0].fd < MAX_FD && s.slots[offers[0].fd].Free? {
        AdmitInv(s, offers[0]);
        AcceptPeak(Admit(s, offers[0]), offers[1..]);
      }
    }
  }

  lemma PeakAfterEvent(s: State, e: Event)
    requires Inv(s)
    ensures var t := Handle(s, e); t.peak == Max(s.peak, t.live)
  {
    if e.Listener? { AcceptPeak(s, e.offers); }
  }

  /** The numbers of live connections after each event of a batch, and of a run. Within
      an event live does not fall after it has risen. */
  function LivesOf(s: State, events: seq<Event>): seq<int>
    requires Inv(s)
    decreases |events|
  {
    if events == [] then [] else [Handle(s, events[0]).live] + LivesOf(Handle(s, events[0]), events[1..])
  }

  function LivesOver(l: Loop, polls: seq<Poll>): seq<int>
    requires Inv(l.state)
    decreases |polls|
  {
    if polls == [] || !l.running then []
    else (if polls[0].Batch? then LivesOf(l.state, polls[0].events) else []) + LivesOver(Pass(l, polls[0]), polls[1..])
  }

  /** The greatest of a number and those of a list. */
  predicate Greatest(peak: int, first: int, lives: seq<int>) {
    && first <= peak && (forall n :: n in lives ==> n <= peak)
    && (peak == first || peak in lives)
  }

  lemma {:induction false} BatchPeak(s: State, events: seq<Event>)
    requires Inv(s)
    ensures Greatest(HandleAll(s, events).peak, s.peak, LivesOf(s, events))
    decreases |events|
  {
    if events != [] {
      PeakAfterEvent(s, events[0]);
      BatchPeak(Handle(s, events[0]), events[1..]);
    }
  }

  lemma GreatestThen(first: int, middle: int, peak: int, before: seq<int>, after: seq<int>)
    requires Greatest(middle, first, before) && Greatest(peak, middle, after)
    ensures Greatest(peak, first, before + after)
  {
  }

  lemma PassPeak(l: Loop, p: Poll)
    requires Inv(l.state)
    ensures Greatest(Pass(l, p).state.peak, l.state.peak, if p.Batch? then LivesOf(l.state, p.events) else [])
  {
    if p.Batch? {
      BatchPeak(l.state, p.events);
      SweepCloses(HandleAll(l.state, p.events), MAX_FD, p.swept);
    }
  }

  lemma {:induction false} RunPeak(l: Loop, polls: seq<Poll>)
    requires Inv(l.state)
    ensures Greatest(Run(l, polls).state.peak, l.state.peak, LivesOver(l, polls))
    decreases |polls|
  {
    if polls != [] && l.running {
      var m := Pass(l, polls[0]);
      PassPeak(l, polls[0]);
      RunPeak(m, polls[1..]);
      GreatestThen(l.state.peak, m.state.peak, Run(l, polls).state.peak,
                   if polls[0].Batch? then LivesOf(l.state, polls[0].events) else [], LivesOver(m, polls[1..]));
    }
  }

  /** In every run of the server `peak` is the greatest number of connections that were
      live after any event, and 0 if there was none. */
  lemma PeakIsMaximum(polls: seq<Poll>, start: int)
    ensures Inv(STARTED)
    ensures var l := Loop(STARTED, true, start); Greatest(Run(l, polls).state.peak, 0, LivesOver(l, polls))
  {
    StartedInv();
    RunPeak(Loop(STARTED, true, start), polls);
  }
}
