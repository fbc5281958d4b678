/** The globals of evserver.c, its table of pointers to connections, and the functions
    and the loop that change them. Each method does to the table what the function of
    EventLoopSpec does to its slots. */
module EventLoop {
  import opened ConnectionSpec
  import opened EventLoopSpec
  import C = Connection
  import L = ConnectionLives

  /** Two connections share no memory. */
  predicate Apart(a: C.Connection, b: C.Connection) {
    && a != b
    && a.input != b.input && a.input != b.output
    && a.output != b.input && a.output != b.output
  }

  ghost function SlotOf(c: C.Connection?): (slot: Slot)
    reads if c == null then {} else {c, c.input, c.output}
  {
    if c == null || !c.Valid() then Free
    else Held(c.fd, c.View(), c.received, c.delivered, c.lastActive)
  }

  ghost predicate Usable(c: C.Connection?)
    reads if c == null then {} else {c}
  {
    c != null ==> c.Valid() && c.say == SERVER
  }

  /** conn_readable and conn_writable, as an event asks. */
  method AttendTo(c: C.Connection, e: Event)
    requires Usable(c) && e.Ready?
    modifies c, c.input, c.output
    ensures Usable(c) && old(SlotOf(c)).Held? && old(SlotOf(c)).conn.Valid()
    ensures SlotOf(c) == Attend(old(SlotOf(c)), e)
  {
    ghost var slot := SlotOf(c);
    if e.readable {
      c.OnReadable(e.recvs, e.readAt);
      assert SlotOf(c) == OnRead(slot, e.recvs, e.readAt);
    }
    ghost var read := SlotOf(c);
    if e.writable {
      c.OnWritable(e.sends, e.writeAt);
      assert SlotOf(c) == OnWrite(read, e.sends, e.writeAt);
    }
  }

  /** The objects of a table: its connections and their buffers are all in `repr`. */
  ghost predicate Owned(table: seq<C.Connection?>, repr: set<object>) {
    && (forall fd {:trigger table[fd]} :: 0 <= fd < |table| && table[fd] != null ==>
          table[fd] in repr && table[fd].input in repr && table[fd].output in repr)
    && (forall fd, g {:trigger table[fd], table[g]} ::
          0 <= fd < g < |table| && table[fd] != null && table[g] != null ==> Apart(table[fd], table[g]))
  }

  class Server {
    const conns: array<C.Connection?>
    var live: int
    var peak: int
    var total: int
    /** The kernel's epoll set. */
    var interest: map<nat, bool>

    ghost var repr: set<object>
    ghost var slots: seq<Slot>

    ghost predicate Valid()
      reads this`repr, this`slots, conns, repr
    {
      && conns.Length == MAX_FD == |slots|
      && this !in repr && conns !in repr
      && Owned(conns[..], repr)
      && (forall fd {:trigger slots[fd]} :: 0 <= fd < MAX_FD ==> Usable(conns[fd]) && slots[fd] == SlotOf(conns[fd]))
    }

    ghost function Globals(): State
      reads this
    {
      State(slots, interest, live, peak, total)
    }

    constructor ()
      ensures Valid() && Globals() == STARTED && fresh(repr) && fresh(conns)
    {
      conns := new C.Connection?[MAX_FD](_ => null);
      live, peak, total, interest, repr := 0, 0, 0, map[], {};
      slots := STARTED.slots;
      new;
      forall fd | 0 <= fd < MAX_FD ensures conns[fd] == null && slots[fd] == Free {
      }
    }

    /** conns[fd] = NULL */
    method Forget(fd: nat)
      requires Valid() && fd < MAX_FD
      modifies this`slots, conns
      ensures Valid()
      ensures slots == old(slots)[fd := Free]
      ensures conns[..] == old(conns[..])[fd := null]
    {
      ghost var table, before := conns[..], slots;
      conns[fd] := null;
      slots := slots[fd := Free];
      assert conns[..] == table[fd := null] && Owned(table[fd := null], repr);
      forall g | 0 <= g < MAX_FD
        ensures Usable(conns[g]) && slots[g] == SlotOf(conns[g])
      {
        assert before[g] == old(SlotOf(conns[g])) && (g != fd ==> conns[g] == table[g] && slots[g] == before[g]);
      }
    }

    /** conn_close */
    method ConnClose(fd: nat)
      requires Valid() && fd < MAX_FD && conns[fd] != null && conns[fd].fd == fd
      modifies this`interest, this`live, this`slots, conns
      ensures Valid() && Globals() == Close(old(Globals()), fd)
    {
      var c := conns[fd];
      interest := interest - {c.fd};
      Forget(c.fd);
      live := live - 1;
    }

    /** One entry attended to: the others share no memory with it. */
    method AttendAt(fd: nat, e: Event)
      requires Valid() && fd < MAX_FD && conns[fd] != null && e.Ready?
      modifies this`slots, conns[fd], conns[fd].input, conns[fd].output
      ensures Valid() && conns[..] == old(conns[..])
      ensures old(slots[fd]).Held? && old(slots[fd]).conn.Valid()
      ensures slots == old(slots)[fd := Attend(old(slots[fd]), e)]
    {
      var c := conns[fd];
      ghost var table, before := conns[..], slots;
      assert c == table[fd] && slots[fd] == SlotOf(c);
      assert c in repr && c.input in repr && c.output in repr;
      AttendTo(c, e);
      assert conns[..] == table;
      slots := slots[fd := SlotOf(c)];
      forall g | 0 <= g < MAX_FD && g != fd
        ensures Usable(conns[g]) && SlotOf(conns[g]) == old(SlotOf(conns[g]))
      {
        assert before[g] == old(SlotOf(conns[g]));
        assert table[g] != null ==> Apart(table[g], table[fd]);
      }
    }

    /** conn_update_interest */
    method UpdateInterest(fd: nat)
      requires Valid() && fd < MAX_FD && conns[fd] != null && conns[fd].fd == fd
      modifies this`interest
      ensures Valid() && slots[fd].Held?
      ensures interest == old(interest)[fd := WantsWrite(slots[fd].conn)]
    {
      assert slots[fd] == SlotOf(conns[fd]) && Usable(conns[fd]);
      interest := interest[conns[fd].fd := conns[fd].outUsed > conns[fd].outSent];
    }

    /** What the loop does with a connection that has been attended to. */
    method SettleAt(fd: nat)
      requires Valid() && fd < MAX_FD && conns[fd] != null && conns[fd].fd == fd
      modifies this`interest, this`live, this`slots, conns
      ensures Valid() && old(slots[fd]).Held? && Globals() == Settle(old(Globals()), fd)
    {
      assert slots[fd] == SlotOf(conns[fd]) && Usable(conns[fd]);
      var c := conns[fd];
      if c.closing && c.outSent >= c.outUsed {
        ConnClose(fd);
      } else {
        UpdateInterest(fd);
      }
    }

    /** The part of the event loop for an event on a connection. */
    method Dispatch(e: Event)
      requires Valid() && Inv(Globals()) && e.Ready?
      modifies this`interest, this`live, this`slots, conns, repr
      ensures Valid() && Globals() == Handle(old(Globals()), e)
      ensures e.fd < MAX_FD && old(slots[e.fd]).Held? ==>
                old(slots[e.fd]).conn.Valid() && L.Fate(old(slots[e.fd]), e, slots[e.fd])
    {
      ghost var s := Globals();
      var fd := e.fd;
      if fd < MAX_FD && s.slots[fd].Held? { L.DispatchFate(s, e); }
      if fd >= MAX_FD || conns[fd] == null { return; }
      assert SlotOk(fd, s.slots[fd], s.interest) && s.slots[fd] == SlotOf(conns[fd]);
      if e.hangup {
        ConnClose(fd);
        return;
      }
      AttendAt(fd, e);
      SettleAt(fd);
    }

    /** A fresh connection, put in the table. */
    method Install(fd: nat, now: int)
      requires Valid() && fd < MAX_FD && conns[fd] == null
      modifies this`slots, this`repr, conns
      ensures Valid() && fresh(repr - old(repr)) && conns[fd] != null && conns[fd].fd == fd
      ensures fresh(conns[fd]) && fresh(conns[fd].input) && fresh(conns[fd].output)
      ensures slots == old(slots)[fd := Held(fd, Conn([], [], 0, 0, false), [], [], now)]
    {
      var c := new C.Connection(fd, now);
      ghost var table, before := conns[..], slots;
      conns[fd] := c;
      slots, repr := slots[fd := SlotOf(c)], repr + {c, c.input, c.output};
      assert conns[..] == table[fd := c];
      forall g | 0 <= g < MAX_FD && g != fd && table[g] != null
        ensures Apart(table[g], c) && Apart(c, table[g])
      {
        assert table[g] in old(repr) && table[g].input in old(repr) && table[g].output in old(repr);
      }
      forall g | 0 <= g < MAX_FD
        ensures Usable(conns[g]) && SlotOf(conns[g]) == slots[g]
      {
        assert before[g] == old(SlotOf(conns[g])) && (g != fd ==> conns[g] == table[g] && slots[g] == before[g]);
      }
    }

    /** The greeting is queued. */
    method Greet(fd: nat)
      requires Valid() && fd < MAX_FD && conns[fd] != null
      modifies this`slots, conns[fd], conns[fd].input, conns[fd].output
      ensures Valid() && conns[..] == old(conns[..])
      ensures old(slots[fd]).Held? && old(slots[fd]).conn.Valid()
      ensures slots == old(slots)[fd := old(slots[fd]).(conn := Queue(old(slots[fd]).conn, SERVER.greeting))]
    {
      var c := conns[fd];
      ghost var table, before := conns[..], slots;
      assert c == table[fd] && slots[fd] == SlotOf(c) && Usable(c);
      assert c in repr && c.input in repr && c.output in repr;
      c.QueueData(c.say.greeting);
      assert conns[..] == table;
      assert SlotOf(c) == before[fd].(conn := Queue(before[fd].conn, SERVER.greeting));
      slots := slots[fd := SlotOf(c)];
      assert Usable(conns[fd]) && slots[fd] == SlotOf(conns[fd]);
      forall g | 0 <= g < MAX_FD && g != fd
        ensures Usable(conns[g]) && SlotOf(conns[g]) == old(SlotOf(conns[g]))
      {
        assert before[g] == old(SlotOf(conns[g]));
        assert table[g] != null ==> Apart(table[g], table[fd]);
      }
    }

    /** A connection the kernel watches is greeted and counted. */
    method Welcome(fd: nat)
      requires Valid() && fd < MAX_FD && conns[fd] != null && conns[fd].fd == fd
      modifies this`interest, this`live, this`peak, this`total, this`slots, conns[fd], conns[fd].input, conns[fd].output
      ensures Valid() && old(slots[fd]).Held? && old(slots[fd]).conn.Valid()
      ensures var c := Queue(old(slots[fd]).conn, SERVER.greeting);
              Globals() == State(old(slots)[fd := old(slots[fd]).(conn := c)], old(interest)[fd := WantsWrite(c)],
                                 old(live) + 1, Max(old(peak), old(live) + 1), old(total) + 1)
    {
      Greet(fd);
      UpdateInterest(fd);
      live, total := live + 1, total + 1;
      if live > peak { peak := live; }
    }

    /** The body of accept_new's loop, for a fresh fd. */
    method AdmitOne(o: AcceptResult)
      requires Valid() && o.Offer? && o.fd < MAX_FD && conns[o.fd] == null
      modifies this`interest, this`live, this`peak, this`total, this`slots, this`repr, conns
      ensures Valid() && Globals() == Admit(old(Globals()), o) && fresh(repr - old(repr))
    {
      if !o.nonblocking || !o.memory { return; }
      assert slots[o.fd] == SlotOf(conns[o.fd]) == Free;
      Install(o.fd, o.at);
      if !o.watched {
        Forget(o.fd);
        return;
      }
      interest := interest[o.fd := false];
      Welcome(o.fd);
    }

    /** accept_new */
    method AcceptNew(offers: seq<AcceptResult>)
      requires Valid()
      modifies this`interest, this`live, this`peak, this`total, this`slots, this`repr, conns
      ensures Valid() && fresh(repr - old(repr))
      ensures Globals() == EventLoopSpec.AcceptNew(old(Globals()), offers)
    {
      ghost var goal := EventLoopSpec.AcceptNew(Globals(), offers);
      var rest := offers;
      while rest != []
        invariant Valid() && fresh(repr - old(repr))
        invariant goal == EventLoopSpec.AcceptNew(Globals(), rest)
        decreases |rest|
      {
        var o := rest[0];
        if o.AcceptFailed? { return; }
        if o.Offer? {
          if o.fd >= MAX_FD { return; }
          assert slots[o.fd] == SlotOf(conns[o.fd]);
          if conns[o.fd] != null { return; }
          AdmitOne(o);
        }
        rest := rest[1..];
      }
    }

    /** The body of sweep_idle's loop. */
    method SweepOne(fd: nat, now: int, ghost s: State)
      requires Valid() && Inv(s) && fd < MAX_FD && Globals() == Sweep(s, fd, now)
      modifies this`interest, this`live, this`slots, conns
      ensures Valid() && Globals() == Sweep(s, fd + 1, now)
    {
      SweepCloses(s, fd, now);
      assert slots[fd] == SlotOf(conns[fd]) && SlotOk(fd, s.slots[fd], s.interest);
      if conns[fd] != null && now - conns[fd].lastActive > IDLE_LIMIT {
        ConnClose(fd);
      }
    }

    /** sweep_idle */
    method SweepIdle(now: int)
      requires Valid() && Inv(Globals())
      modifies this`interest, this`live, this`slots, conns
      ensures Valid() && Globals() == Sweep(old(Globals()), MAX_FD, now)
    {
      ghost var s := Globals();
      for fd := 0 to MAX_FD
        invariant Valid() && Globals() == Sweep(s, fd, now)
      {
        SweepOne(fd, now, s);
      }
    }

    /** The loop over the events of one epoll_wait. */
    method HandleEvents(events: seq<Event>, running: bool) returns (stillRunning: bool)
      requires Valid() && Inv(Globals())
      modifies this, conns, repr
      ensures Valid() && fresh(repr - old(repr))
      ensures Globals() == HandleAll(old(Globals()), events)
      ensures stillRunning == (running && Wake !in events)
    {
      ghost var goal := HandleAll(Globals(), events);
      stillRunning := running;
      for i := 0 to |events|
        invariant Valid() && fresh(repr - old(repr)) && Inv(Globals())
        invariant goal == HandleAll(Globals(), events[i..])
        invariant stillRunning == (running && Wake !in events[..i])
      {
        assert events[i..][0] == events[i] && events[i..][1..] == events[i + 1..];
        assert events[..i + 1] == events[..i] + [events[i]];
        match events[i]
        case Listener(offers) => AcceptNew(offers);
        case Wake => stillRunning := false;
        case Ready(_, _, _, _, _, _, _, _) => Dispatch(events[i]);
      }
      assert events[..|events|] == events;
    }

    /** The body of main's loop after epoll_wait. */
    method OneBatch(p: Poll, wasRunning: bool, wasSwept: int) returns (running: bool, lastSweep: int)
      requires Valid() && Inv(Globals()) && p.Batch?
      modifies this, conns, repr
      ensures Valid() && fresh(repr - old(repr))
      ensures Loop(Globals(), running, lastSweep) == Pass(Loop(old(Globals()), wasRunning, wasSwept), p)
    {
      running := HandleEvents(p.events, wasRunning);
      lastSweep := wasSwept;
      if p.tested - lastSweep >= SWEEP_EVERY {
        SweepIdle(p.swept);
        lastSweep := p.noted;
      }
    }

    /** The body of main's loop. */
    method OnePass(p: Poll, wasRunning: bool, wasSwept: int) returns (running: bool, lastSweep: int)
      requires Valid() && Inv(Globals())
      modifies this, conns, repr
      ensures Valid() && fresh(repr - old(repr))
      ensures Loop(Globals(), running, lastSweep) == Pass(Loop(old(Globals()), wasRunning, wasSwept), p)
    {
      running, lastSweep := wasRunning, wasSwept;
      if p.PollFailed? {
        running := false;
      } else if p.Batch? {
        running, lastSweep := OneBatch(p, wasRunning, wasSwept);
      }
    }

    /** main's loop, over what epoll_wait gives. */
    method RunLoop(polls: seq<Poll>, start: int)
      requires Valid() && Inv(Globals())
      modifies this, conns, repr
      ensures Valid() && fresh(repr - old(repr))
      ensures Globals() == Run(Loop(old(Globals()), true, start), polls).state
    {
      ghost var goal := Run(Loop(Globals(), true, start), polls);
      var running, lastSweep, rest := true, start, polls;
      while running && rest != []
        invariant Valid() && Inv(Globals()) && fresh(repr - old(repr))
        invariant goal == Run(Loop(Globals(), running, lastSweep), rest)
        decreases |rest|
      {
        running, lastSweep := OnePass(rest[0], running, lastSweep);
        rest := rest[1..];
      }
    }

    /** The loop over the table when the server stops. */
    method CloseEveryone()
      requires Valid() && Inv(Globals())
      modifies this`interest, this`live, this`slots, conns
      ensures Valid() && Globals() == CloseAll(old(Globals()), MAX_FD)
    {
      ghost var s := Globals();
      for fd := 0 to MAX_FD
        invariant Valid() && Globals() == CloseAll(s, fd)
      {
        CloseAllCloses(s, fd);
        assert slots[fd] == SlotOf(conns[fd]) && SlotOk(fd, s.slots[fd], s.interest);
        if conns[fd] != null { ConnClose(fd); }
      }
    }

    /** The server's life: every run ends with no connection open, counted or watched. */
    method Serve(polls: seq<Poll>, start: int)
      requires Valid() && Inv(Globals())
      modifies this, conns, repr
      ensures Valid() && live == 0 && interest == map[]
      ensures forall fd :: 0 <= fd < MAX_FD ==> conns[fd] == null
      ensures var s := Run(Loop(old(Globals()), true, start), polls).state;
              peak == s.peak && total == s.total
    {
      RunLoop(polls, start);
      StoppedClean(Globals());
      CloseEveryone();
      forall fd | 0 <= fd < MAX_FD ensures conns[fd] == null {
        assert slots[fd] == SlotOf(conns[fd]);
      }
    }
  }
}
